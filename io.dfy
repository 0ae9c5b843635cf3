/** The objects ClamdClient works through: the part of java.nio.ByteBuffer it uses,
    the non-blocking socket to the daemon, and the caller's InputStream. The socket
    and the stream are scripted: each call consumes the next entry of a finite
    script, which stands for what the network, the clock or the caller's stream
    does at that call. */
module IO {
  import opened Bytes
  import opened Framing
  import opened Timing

  function Min(a: nat, b: nat): (m: nat)
    ensures m <= a && m <= b && (m == a || m == b)
  {
    if a <= b then a else b
  }

  /** A heap buffer with its position and limit: the bytes between them are the
      ones the next write sends or the next read fills. */
  class ByteBuf {
    const hb: array<byte>
    var position: nat
    var limit: nat

    ghost predicate Valid()
      reads this
    {
      position <= limit <= hb.Length
    }

    function Remaining(): nat
      reads this
      requires Valid()
    {
      limit - position
    }

    /** ByteBuffer.wrap: the whole array, from its start. */
    constructor Wrap(a: array<byte>)
      ensures hb == a && position == 0 && limit == a.Length
      ensures Valid()
    {
      hb := a;
      position := 0;
      limit := a.Length;
    }

    /** ByteBuffer.allocate: a new zeroed array of the given capacity. */
    constructor Allocate(capacity: nat)
      ensures fresh(hb) && hb.Length == capacity
      ensures position == 0 && limit == capacity
      ensures Valid()
    {
      hb := new byte[capacity](_ => 0);
      position := 0;
      limit := capacity;
    }

    /** position(p); Java throws unless p <= limit. */
    method SetPosition(p: nat)
      requires Valid() && p <= limit
      modifies this
      ensures position == p && limit == old(limit)
      ensures Valid()
    {
      position := p;
    }

    /** limit(l): a position beyond the new limit is moved back to it; Java throws
        unless l <= capacity. */
    method SetLimit(l: nat)
      requires Valid() && l <= hb.Length
      modifies this
      ensures limit == l
      ensures position == if old(position) > l then l else old(position)
      ensures Valid()
    {
      limit := l;
      if position > l {
        position := l;
      }
    }

    /** flip(): the bytes just filled become the bytes to drain. */
    method Flip()
      requires Valid()
      modifies this
      ensures limit == old(position) && position == 0
      ensures Valid()
    {
      limit := position;
      position := 0;
    }

    /** putInt(index, v): the four big-endian bytes of v at index, position unchanged;
        Java throws unless index + 4 <= limit. */
    method PutInt(index: nat, v: int32)
      requires Valid() && index + 4 <= limit
      modifies hb
      ensures hb[..] == old(hb[..index]) + IntBytes(v) + old(hb[index + 4..])
    {
      var b := IntBytes(v);
      hb[index] := b[0];
      hb[index + 1] := b[1];
      hb[index + 2] := b[2];
      hb[index + 3] := b[3];
      assert hb[..] == old(hb[..index]) + b + old(hb[index + 4..]);
    }
  }

  /** One isTimeout check made on a channel: the start reading and timeout it was
      given, and the clock reading it compared them with (`clockRanOut` when the
      readings were exhausted, which counts as the deadline having passed). */
  datatype DeadlineCheck = DeadlineCheck(start: int64, timeoutMilli: int64, now: int64, clockRanOut: bool)

  /** Whether the check found the deadline passed. */
  predicate Expired(c: DeadlineCheck)
  {
    c.clockRanOut || IsTimeout(c.start, c.timeoutMilli, c.now)
  }

  /** The clock readings `ticks0` were used, in order, by the deadline checks `cs`,
      leaving `ticks`: each check took the next reading as its `now`, and a check
      found the clock run out only when no reading was left. */
  ghost predicate ClockedChecks(ticks0: seq<int64>, cs: seq<DeadlineCheck>, ticks: seq<int64>)
    decreases |cs|
  {
    if cs == [] then ticks0 == ticks
    else if cs[0].clockRanOut then ticks0 == [] && ClockedChecks([], cs[1..], ticks)
    else ticks0 != [] && cs[0].now == ticks0[0] && ClockedChecks(ticks0[1..], cs[1..], ticks)
  }

  /** One more check, made against the readings left after the earlier ones. */
  lemma {:induction false} ClockedSnoc(ticks0: seq<int64>, cs: seq<DeadlineCheck>, ticks: seq<int64>,
                                       c: DeadlineCheck, ticks': seq<int64>)
    requires ClockedChecks(ticks0, cs, ticks)
    requires ticks == [] ==> c.clockRanOut && ticks' == []
    requires ticks != [] ==> !c.clockRanOut && c.now == ticks[0] && ticks' == ticks[1..]
    ensures ClockedChecks(ticks0, cs + [c], ticks')
    decreases |cs|
  {
    if cs == [] {
      assert [c][1..] == [];
    } else {
      assert (cs + [c])[1..] == cs[1..] + [c];
      if cs[0].clockRanOut {
        ClockedSnoc([], cs[1..], ticks, c, ticks');
      } else {
        ClockedSnoc(ticks0[1..], cs[1..], ticks, c, ticks');
      }
    }
  }

  /** The connected SocketChannel, as the daemon and the network behave on it. */
  class Channel {
    /** Every byte the daemon has received, in order. */
    var sent: seq<byte>
    /** How many bytes the socket takes at each successive write call. */
    var accepts: seq<nat>
    /** The daemon's reply bytes not yet read. */
    var inbound: seq<byte>
    /** How many reply bytes have arrived at each successive read call. */
    var arrivals: seq<nat>
    /** Whether the daemon closes the connection after its reply. */
    const peerClosed: bool
    /** The last System.nanoTime() reading. */
    var clock: int64
    /** The successive System.nanoTime() readings still to come; when they run out,
        every deadline counts as passed. */
    var ticks: seq<int64>
    /** Every deadline check made so far, in order. */
    ghost var checks: seq<DeadlineCheck>

    constructor (accepts: seq<nat>, inbound: seq<byte>, arrivals: seq<nat>, peerClosed: bool,
                 clock: int64, ticks: seq<int64>)
      ensures sent == [] && this.accepts == accepts && this.inbound == inbound
      ensures this.arrivals == arrivals && this.peerClosed == peerClosed
      ensures this.clock == clock && this.ticks == ticks && checks == []
    {
      sent := [];
      this.accepts := accepts;
      this.inbound := inbound;
      this.arrivals := arrivals;
      this.peerClosed := peerClosed;
      this.clock := clock;
      this.ticks := ticks;
      checks := [];
    }

    /** write(bb): sends as many of the remaining bytes as the socket takes now
        (possibly none) and advances the position past them. */
    method Write(bb: ByteBuf) returns (n: nat)
      requires bb.Valid()
      modifies this, bb
      ensures n == (if old(accepts) == [] then 0 else Min(old(accepts)[0], old(bb.Remaining())))
      ensures accepts == if old(accepts) == [] then [] else old(accepts)[1..]
      ensures bb.position == old(bb.position) + n && bb.limit == old(bb.limit) && bb.Valid()
      ensures sent == old(sent) + bb.hb[old(bb.position)..bb.position]
      ensures inbound == old(inbound) && arrivals == old(arrivals)
      ensures clock == old(clock) && ticks == old(ticks) && checks == old(checks)
    {
      if accepts == [] {
        n := 0;
      } else {
        n := Min(accepts[0], bb.limit - bb.position);
        accepts := accepts[1..];
      }
      sent := sent + bb.hb[bb.position..bb.position + n];
      bb.position := bb.position + n;
    }

    /** How many reply bytes are ready at this read call. */
    function Ready(): nat
      reads this
    {
      if arrivals == [] then |inbound| else Min(arrivals[0], |inbound|)
    }

    /** read(bb): -1 once the daemon has closed the connection and every byte has
        been read; otherwise the bytes that are ready, as many as fit between
        position and limit. With no room at all it returns 0 without looking at the
        socket, even after the daemon has closed it. */
    method Read(bb: ByteBuf) returns (n: int)
      requires bb.Valid()
      modifies this, bb, bb.hb
      ensures bb.Valid() && bb.limit == old(bb.limit)
      ensures n >= -1
      ensures n == -1 <==> old(bb.Remaining()) > 0 && old(inbound) == [] && peerClosed
      ensures n == -1 ==> bb.position == old(bb.position) && inbound == old(inbound)
      ensures old(bb.Remaining()) == 0 ==> n == 0
      ensures n >= 0 && old(bb.Remaining()) > 0 ==> n == Min(old(Ready()), old(bb.Remaining()))
      ensures n >= 0 ==> n <= old(bb.Remaining()) && n <= |old(inbound)|
      ensures n >= 0 ==> bb.position == old(bb.position) + n && inbound == old(inbound)[n..]
      ensures n >= 0 ==> bb.hb[old(bb.position)..bb.position] == old(inbound)[..n]
      ensures forall i :: 0 <= i < bb.hb.Length && !(old(bb.position) <= i < bb.position) ==> bb.hb[i] == old(bb.hb[i])
      ensures sent == old(sent) && accepts == old(accepts)
      ensures clock == old(clock) && ticks == old(ticks) && checks == old(checks)
    {
      var room := bb.limit - bb.position;
      if room == 0 {
        return 0;
      }
      if inbound == [] && peerClosed {
        if arrivals != [] {
          arrivals := arrivals[1..];
        }
        return -1;
      }
      n := Min(Ready(), room);
      if arrivals != [] {
        arrivals := arrivals[1..];
      }
      var p := bb.position;
      ghost var data := inbound[..n];
      forall i | p <= i < p + n {
        bb.hb[i] := inbound[i - p];
      }
      assert forall j :: 0 <= j < n ==> bb.hb[p + j] == data[j];
      assert bb.hb[p..p + n] == data;
      bb.position := p + n;
      inbound := inbound[n..];
    }

    /** System.nanoTime(): the next clock reading. */
    method NanoTime() returns (t: int64)
      modifies this
      ensures ticks == if old(ticks) == [] then [] else old(ticks)[1..]
      ensures t == (if old(ticks) == [] then old(clock) else old(ticks)[0]) && clock == t
      ensures sent == old(sent) && accepts == old(accepts)
      ensures inbound == old(inbound) && arrivals == old(arrivals) && checks == old(checks)
    {
      if ticks != [] {
        clock := ticks[0];
        ticks := ticks[1..];
      }
      t := clock;
    }

    /** isTimeout(start, timeout_milli) against the next clock reading; the check is
        logged with its verdict. */
    method TimedOut(start: int64, timeoutMilli: int64) returns (late: bool)
      modifies this
      ensures old(ticks) == [] ==> late && ticks == [] && clock == old(clock)
      ensures old(ticks) != [] ==> ticks == old(ticks)[1..] && clock == old(ticks)[0]
      ensures old(ticks) != [] ==> late == IsTimeout(start, timeoutMilli, clock)
      ensures checks == old(checks) + [DeadlineCheck(start, timeoutMilli, clock, old(ticks) == [])]
      ensures late == Expired(checks[|checks| - 1])
      ensures sent == old(sent) && accepts == old(accepts)
      ensures inbound == old(inbound) && arrivals == old(arrivals)
    {
      checks := checks + [DeadlineCheck(start, timeoutMilli, clock, ticks == [])];
      if ticks == [] {
        return true;
      }
      clock := ticks[0];
      ticks := ticks[1..];
      checks := old(checks) + [DeadlineCheck(start, timeoutMilli, clock, false)];
      late := IsTimeout(start, timeoutMilli, clock);
    }
  }

  /** The caller's InputStream: each read call produces the next entry of the script,
      and an exhausted script reads as the end of the stream. */
  class InputSource {
    var script: seq<SourceRead>

    constructor (script: seq<SourceRead>)
      ensures this.script == script
    {
      this.script := script;
    }

    /** read(b, off, len): the next piece into b[off..], its length, or -1 at the end;
        `failed` when the read throws. */
    method Read(b: array<byte>, off: nat, len: nat) returns (failed: bool, n: int)
      requires off + len <= b.Length && MaxChunk <= len
      requires ValidReads(script)
      modifies this, b
      ensures script == if old(script) == [] then [] else old(script)[1..]
      ensures ValidReads(script)
      ensures failed <==> old(script) != [] && old(script)[0].ReadFailure?
      ensures !failed && (old(script) == [] || old(script)[0].EndOfStream?) ==> n == -1
      ensures old(script) != [] && old(script)[0].Data? ==>
        n == |old(script)[0].bytes| && b[off..off + n] == old(script)[0].bytes
      ensures n >= 0 ==> off + n <= b.Length
      ensures forall i :: 0 <= i < b.Length && !(off <= i < off + n) ==> b[i] == old(b[i])
    {
      if script == [] {
        return false, -1;
      }
      var next := script[0];
      script := script[1..];
      match next
      case EndOfStream =>
        return false, -1;
      case ReadFailure =>
        return true, -1;
      case Data(bytes) =>
        forall i | off <= i < off + |bytes| {
          b[i] := bytes[i - off];
        }
        return false, |bytes|;
    }
  }
}
