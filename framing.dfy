/** The INSTREAM upload format: each piece of the caller's stream goes out as a
    4-byte big-endian length followed by that many bytes, and a zero length ends
    the upload. */
module Framing {
  import opened Bytes
  import opened Results

  /** Largest piece the upload loop reads from the caller's stream at once. */
  const MaxChunk: nat := 4096

  /** The zero-length chunk that ends an upload. */
  const Terminator: seq<byte> := [0, 0, 0, 0]

  /** What one read of the caller's InputStream produces. */
  datatype SourceRead =
    | Data(bytes: seq<byte>)   // read(buffer, 4, 4096) returned bytes.Length bytes
    | EndOfStream              // read returned -1
    | ReadFailure              // read threw an IOException

  /** The InputStream contract for read(b, off, 4096): 1 to 4096 bytes, unless at end. */
  predicate ValidReads(script: seq<SourceRead>)
  {
    forall i :: 0 <= i < |script| && script[i].Data? ==> 1 <= |script[i].bytes| <= MaxChunk
  }

  predicate ValidPieces(pieces: seq<seq<byte>>)
  {
    forall i :: 0 <= i < |pieces| ==> 1 <= |pieces[i]| <= MaxChunk
  }

  /** The pieces a stream delivers before its first end or failure. */
  function Pieces(script: seq<SourceRead>): (pieces: seq<seq<byte>>)
    ensures ValidReads(script) ==> ValidPieces(pieces)
    ensures |pieces| <= |script|
    ensures forall i :: 0 <= i < |pieces| ==> script[i] == Data(pieces[i])
    ensures |pieces| < |script| ==> !script[|pieces|].Data?
  {
    if script == [] || !script[0].Data? then [] else [script[0].bytes] + Pieces(script[1..])
  }

  /** Whether the stream reaches its end (or runs out of reads) without a read failing. */
  predicate EndsCleanly(script: seq<SourceRead>)
  {
    script == [] || script[0].EndOfStream? || (script[0].Data? && EndsCleanly(script[1..]))
  }

  function Concat(pieces: seq<seq<byte>>): seq<byte>
  {
    if pieces == [] then [] else pieces[0] + Concat(pieces[1..])
  }

  /** One data chunk on the wire. */
  function Frame(piece: seq<byte>): (f: seq<byte>)
    requires 1 <= |piece| <= MaxChunk
    ensures |f| == 4 + |piece| && f[4..] == piece
    ensures FromBigEndian32(f[..4]) == |piece|
  {
    DecodeEncode32(|piece|);
    BigEndian32(|piece|) + piece
  }

  /** The data chunks for a sequence of pieces, in order. */
  function Frames(pieces: seq<seq<byte>>): seq<byte>
    requires ValidPieces(pieces)
  {
    if pieces == [] then [] else Frame(pieces[0]) + Frames(pieces[1..])
  }

  /** The daemon's side: the pieces of a complete upload, or None when the bytes are
      not data chunks of 1 to 4096 bytes followed by exactly one terminator. */
  function Deframe(s: seq<byte>): Option<seq<seq<byte>>>
    decreases |s|
  {
    if |s| < 4 then None
    else
      var n := FromBigEndian32(s[..4]);
      if n == 0 then (if |s| == 4 then Some([]) else None)
      else if n > MaxChunk || |s| < 4 + n then None
      else match Deframe(s[4 + n..])
        case None => None
        case Some(rest) => Some([s[4..4 + n]] + rest)
  }

  /** The frames of consecutive piece lists follow one another. */
  lemma {:induction false} FramesAppend(p: seq<seq<byte>>, q: seq<seq<byte>>)
    requires ValidPieces(p) && ValidPieces(q)
    ensures ValidPieces(p + q)
    ensures Frames(p + q) == Frames(p) + Frames(q)
    decreases |p|
  {
    ValidPiecesAppend(p, q);
    if p == [] {
      assert p + q == q;
    } else {
      FramesAppend(p[1..], q);
      assert (p + q)[0] == p[0];
      assert (p + q)[1..] == p[1..] + q;
      assert Frames(p + q) == Frame(p[0]) + (Frames(p[1..]) + Frames(q));
    }
  }

  lemma ValidPiecesAppend(p: seq<seq<byte>>, q: seq<seq<byte>>)
    requires ValidPieces(p) && ValidPieces(q)
    ensures ValidPieces(p + q)
  {
    assert forall i :: 0 <= i < |p + q| ==> (p + q)[i] == if i < |p| then p[i] else q[i - |p|];
  }

  /** Round trip: the daemon decodes a completed upload to exactly the pieces sent. */
  lemma {:induction false} DeframeFrames(pieces: seq<seq<byte>>)
    requires ValidPieces(pieces)
    ensures Deframe(Frames(pieces) + Terminator) == Some(pieces)
  {
    var s := Frames(pieces) + Terminator;
    if pieces == [] {
      assert s == Terminator;
    } else {
      var p := pieces[0];
      var f := Frame(p);
      var tail := Frames(pieces[1..]) + Terminator;
      Regroup(f, Frames(pieces[1..]), Terminator);
      assert s == f + tail;
      assert s[..4] == f[..4];
      assert s[4..4 + |p|] == p;
      assert s[4 + |p|..] == tail;
      DeframeFrames(pieces[1..]);
      DeframeCons(s, |p|, pieces[1..]);
      assert [p] + pieces[1..] == pieces;
    }
  }

  /** The decoder accepts nothing but a completed upload of valid pieces. */
  lemma {:induction false} FramesOfDeframe(s: seq<byte>)
    ensures Deframe(s).Some? ==>
              ValidPieces(Deframe(s).value) && s == Frames(Deframe(s).value) + Terminator
    decreases |s|
  {
    if |s| >= 4 && Deframe(s).Some? {
      var n := FromBigEndian32(s[..4]);
      EncodeDecode32(s[..4]);
      if n == 0 {
        assert s == s[..4];
        assert s[..4] == BigEndian32(0);
      } else {
        var rest := s[4 + n..];
        FramesOfDeframe(rest);
        DeframeStep(s, n, Deframe(rest).value);
      }
    }
  }

  /** One data chunk in front of a decoded remainder. */
  lemma DeframeStep(s: seq<byte>, n: nat, tail: seq<seq<byte>>)
    requires |s| >= 4 && n == FromBigEndian32(s[..4]) && s[..4] == BigEndian32(n)
    requires 1 <= n <= MaxChunk && 4 + n <= |s|
    requires Deframe(s[4 + n..]) == Some(tail)
    requires ValidPieces(tail) && s[4 + n..] == Frames(tail) + Terminator
    ensures Deframe(s).Some? && ValidPieces(Deframe(s).value)
    ensures s == Frames(Deframe(s).value) + Terminator
  {
    var p := s[4..4 + n];
    DeframeCons(s, n, tail);
    FramesCons(p, tail);
    FrameAtStart(s, n);
    Regroup(Frame(p), Frames(tail), Terminator);
  }

  /** The decoder takes a chunk of n bytes off the front and decodes the rest. */
  lemma DeframeCons(s: seq<byte>, n: nat, tail: seq<seq<byte>>)
    requires |s| >= 4 && n == FromBigEndian32(s[..4])
    requires 1 <= n <= MaxChunk && 4 + n <= |s|
    requires Deframe(s[4 + n..]) == Some(tail)
    ensures Deframe(s) == Some([s[4..4 + n]] + tail)
  {
  }

  /** A chunk header announcing n bytes, and those bytes, are their frame. */
  lemma FrameAtStart(s: seq<byte>, n: nat)
    requires 1 <= n <= MaxChunk && 4 + n <= |s|
    requires s[..4] == BigEndian32(n)
    ensures s == Frame(s[4..4 + n]) + s[4 + n..]
  {
    assert s[..4 + n] == s[..4] + s[4..4 + n];
    assert s == s[..4 + n] + s[4 + n..];
  }

  /** A piece's frame starts the frames of the pieces it heads. */
  lemma FramesCons(p: seq<byte>, rest: seq<seq<byte>>)
    requires 1 <= |p| <= MaxChunk && ValidPieces(rest)
    ensures ValidPieces([p] + rest)
    ensures Frames([p] + rest) == Frame(p) + Frames(rest)
  {
    assert ([p] + rest)[1..] == rest;
  }

  lemma Regroup<T>(a: seq<T>, b: seq<T>, c: seq<T>)
    ensures a + (b + c) == (a + b) + c
  {
  }

  /** An upload cut short (no terminator, or a chunk only partly sent) is never
      taken for a complete one. */
  lemma {:induction false} TruncatedUploadRejected(pieces: seq<seq<byte>>, u: seq<byte>)
    requires ValidPieces(pieces)
    requires u < Frames(pieces) + Terminator
    ensures Deframe(u) == None
  {
    var full := Frames(pieces) + Terminator;
    assert u == full[..|u|];
    if |u| >= 4 && pieces != [] {
      var p := pieces[0];
      var f := Frame(p);
      assert full == f + (Frames(pieces[1..]) + Terminator);
      assert u[..4] == f[..4];
      var n := |p|;
      if |u| >= 4 + n {
        assert u[4 + n..] < Frames(pieces[1..]) + Terminator;
        TruncatedUploadRejected(pieces[1..], u[4 + n..]);
      }
    }
  }

  /** How ByteArrayInputStream hands out an array to read(b, off, 4096). */
  function ByteArrayChunks(x: seq<byte>): (c: seq<seq<byte>>)
    ensures ValidPieces(c)
    decreases |x|
  {
    if |x| == 0 then []
    else if |x| <= MaxChunk then [x]
    else [x[..MaxChunk]] + ByteArrayChunks(x[MaxChunk..])
  }

  /** The reads a ByteArrayInputStream over `x` produces. */
  function ByteArrayReads(x: seq<byte>): seq<SourceRead>
  {
    var chunks := ByteArrayChunks(x);
    seq(|chunks|, i requires 0 <= i < |chunks| => Data(chunks[i])) + [EndOfStream]
  }

  /** Uploading an array: ceil(|x| / 4096) valid pieces, all full but the last,
      which concatenate back to `x`. */
  lemma {:induction false} ByteArrayChunksSound(x: seq<byte>)
    ensures ValidPieces(ByteArrayChunks(x))
    ensures Concat(ByteArrayChunks(x)) == x
    ensures |ByteArrayChunks(x)| == (|x| + MaxChunk - 1) / MaxChunk
    ensures forall i :: 0 <= i < |ByteArrayChunks(x)| - 1 ==> |ByteArrayChunks(x)[i]| == MaxChunk
    decreases |x|
  {
    if |x| > MaxChunk {
      var rest := x[MaxChunk..];
      ByteArrayChunksSound(rest);
      var c := ByteArrayChunks(x);
      assert c[1..] == ByteArrayChunks(rest);
      assert x == x[..MaxChunk] + rest;
    }
  }

  /** A ByteArrayInputStream ends cleanly and delivers exactly its chunks. */
  lemma {:induction false} ByteArrayReadsSound(x: seq<byte>)
    ensures ValidReads(ByteArrayReads(x))
    ensures Pieces(ByteArrayReads(x)) == ByteArrayChunks(x)
    ensures EndsCleanly(ByteArrayReads(x))
  {
    var chunks := ByteArrayChunks(x);
    var script := ByteArrayReads(x);
    ByteArrayChunksSound(x);
    var p := Pieces(script);
    assert forall i :: 0 <= i < |chunks| ==> script[i] == Data(chunks[i]);
    assert script[|chunks|] == EndOfStream;
    assert p == chunks;
    CleanSuffix(script, |chunks|);
  }

  /** A stream whose reads are data up to an end of stream, or up to the end of
      its script, ends cleanly. */
  lemma {:induction false} CleanSuffix(script: seq<SourceRead>, k: nat)
    requires k <= |script| && (k == |script| || script[k].EndOfStream?)
    requires forall i :: 0 <= i < k ==> script[i].Data?
    ensures EndsCleanly(script)
    decreases k
  {
    if k > 0 {
      CleanSuffix(script[1..], k - 1);
    }
  }

  /** The integration test's 1,000,000-byte upload goes out as 245 chunks. */
  lemma MillionByteUpload(x: seq<byte>)
    requires |x| == 1_000_000
    ensures |ByteArrayChunks(x)| == 245
  {
    ByteArrayChunksSound(x);
  }
}
