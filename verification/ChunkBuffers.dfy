/** Reassembling chunks from a stream that delivers its bytes in arbitrary portions
    (`ChunkBuffer`, p2p_fuzzer/src/bin/p2p_fuzzer.rs). */
module ChunkBuffers {
  import opened Basics
  import opened Bytes

  const BUFFER_SIZE: nat := 0x10000

  /** One direction of a connection: the bytes the peer sends before it closes. */
  class Stream {
    var pending: seq<byte>

    constructor (bytes: seq<byte>)
      ensures pending == bytes
    {
      pending := bytes;
    }

    /** Waits for at least one byte; zero bytes mean a full buffer or the end of the stream. How
        many bytes arrive is up to the network. */
    method Read(data: array<byte>, from: nat) returns (n: nat)
      requires from <= data.Length
      modifies this, data
      ensures from + n <= data.Length && n <= |old(pending)|
      ensures n == 0 <==> from == data.Length || old(pending) == []
      ensures data[..from + n] == old(data[..from]) + old(pending)[..n]
      ensures pending == old(pending)[n..]
    {
      var room := data.Length - from;
      var most := if room < |pending| then room else |pending|;
      n := 0;
      if most > 0 {
        n :| 1 <= n <= most;
      }
      ghost var before := data[..from];
      for i := 0 to n
        modifies data
        invariant data[..from] == before
        invariant data[from..from + i] == pending[..i]
      {
        data[from + i] := pending[i];
      }
      assert data[..from + n] == data[..from] + data[from..from + n];
      pending := pending[n..];
    }
  }

  /** A raw chunk, the error after repeated empty reads, or a loop that never ends: the buffer holds
      part of a chunk and every further read is empty. */
  datatype ChunkResult = Chunk(raw: seq<byte>) | Eof | Stuck

  /** What reading a chunk gives, by the unread bytes alone. */
  function NextChunk(unread: seq<byte>): (r: ChunkResult)
    ensures r.Chunk? ==> 2 <= |r.raw| <= |unread| && r.raw == unread[..|r.raw|]
  {
    if unread == [] then Eof
    else if |unread| < 2 then Stuck
    else
      var rawLen := FromBE(unread[..2]) + 2;
      if rawLen <= BUFFER_SIZE && rawLen <= |unread| then Chunk(unread[..rawLen]) else Stuck
  }

  /** The chunk at the front of the buffer, if all of it is there. */
  function Complete(held: seq<byte>): (r: Option<seq<byte>>)
    ensures r.Some? ==> |r.value| <= |held| && r.value == held[..|r.value|]
  {
    if |held| >= 2 && FromBE(held[..2]) + 2 <= |held| then Some(held[..FromBE(held[..2]) + 2]) else None
  }

  /** A complete chunk in the buffer is the next chunk; without one, the reader is at the end when
      nothing more comes, and stuck when the buffer is full. */
  lemma CompleteIsNext(held: seq<byte>, pending: seq<byte>)
    requires |held| <= BUFFER_SIZE
    ensures Complete(held).Some? ==> NextChunk(held + pending) == Chunk(Complete(held).value)
    ensures Complete(held).None? && (pending == [] || |held| == BUFFER_SIZE) ==>
              NextChunk(held + pending) == if held + pending == [] then Eof else Stuck
  {
    hide FromBE;
    var all := held + pending;
    if |held| >= 2 {
      assert all[..2] == held[..2];
      var rawLen := FromBE(held[..2]) + 2;
      if rawLen <= |held| {
        assert all[..rawLen] == held[..rawLen];
      }
    } else if pending == [] {
      assert all == held;
    }
  }

  class ChunkBuffer {
    var len: nat
    const data: array<byte>

    ghost predicate Valid()
      reads this
    {
      data.Length == BUFFER_SIZE && len <= BUFFER_SIZE
    }

    constructor ()
      ensures Valid() && fresh(data) && len == 0
    {
      len := 0;
      data := new byte[BUFFER_SIZE](_ => 0);
    }

    /** The bytes received and not yet returned, and those still to come. */
    ghost function Unread(stream: Stream): seq<byte>
      requires Valid()
      reads this, data, stream
    {
      data[..len] + stream.pending
    }

    /** The in-place shift to the front. */
    method Drop(count: nat)
      requires Valid() && count <= len
      modifies this`len, data
      ensures Valid() && data[..len] == old(data[count..len])
      ensures len == old(len) - count
    {
      var n := len;
      ghost var before := data[..n];
      for i := count to n
        modifies data
        invariant data[..i - count] == before[count..i]
        invariant data[i..n] == before[i..n]
      {
        assert data[i] == data[i..n][0] == before[i];
        data[i - count] := data[i];
      }
      len := n - count;
    }

    /** Takes a chunk off the front if all of it is there. */
    method Take() returns (r: Option<seq<byte>>)
      requires Valid()
      modifies this`len, data
      ensures Valid()
      ensures r == Complete(old(data[..len]))
      ensures data[..len] == old(data[..len])[if r.Some? then |r.value| else 0..]
    {
      r := None;
      ghost var held := data[..len];
      assert held[0..] == held;
      if len >= 2 {
        var rawLen := FromBE(data[..2]) + 2;
        assert data[..2] == held[..2];
        if len >= rawLen {
          var raw := data[..rawLen];
          assert raw == held[..rawLen];
          Drop(rawLen);
          r := Some(raw);
        }
      }
    }

    /** Returns the next chunk of the unread bytes however they were cut into reads, and keeps the
        rest in order. */
    method ReadChunk(stream: Stream) returns (r: ChunkResult)
      requires Valid()
      modifies this`len, data, stream
      ensures Valid()
      ensures r == NextChunk(old(Unread(stream)))
      ensures Unread(stream) == old(Unread(stream))[if r.Chunk? then |r.raw| else 0..]
    {
      hide NextChunk, Complete;
      ghost var unread := Unread(stream);
      assert unread[0..] == unread;
      var retry := 0;
      while true
        invariant Valid() && Unread(stream) == unread && retry <= 3
        invariant retry > 0 ==> unread == []
        decreases |stream.pending|, 4 - retry
      {
        ghost var held := data[..len];
        var raw := Take();
        CompleteIsNext(held, stream.pending);
        if raw.Some? {
          assert Unread(stream) == unread[|raw.value|..];
          return Chunk(raw.value);
        }
        assert data[..len] == held;
        var n := stream.Read(data, len);
        len := len + n;
        assert Unread(stream) == unread;
        if len == 0 {
          if retry > 2 {
            return Eof;
          }
          retry := retry + 1;
        } else if n == 0 {
          return Stuck;
        }
      }
    }
  }

  /** A framed content at the front of the unread bytes: it comes out exactly when it is shorter
      than the longest content that can be framed. */
  lemma FrontChunk(content: seq<byte>, tail: seq<byte>)
    requires |content| <= 65535
    ensures NextChunk(ToBE(2, |content|) + content + tail)
         == if |content| < 65535 then Chunk(ToBE(2, |content|) + content) else Stuck
  {
    hide ToBE, FromBE, NextChunk, Pow256;
    SmallPowers();
    FromToBE(2, |content|);
    var raw := ToBE(2, |content|) + content;
    RawInFront(raw, tail);
    assert raw[..2] == ToBE(2, |content|);
  }

  /** Raw bytes that state their own length, at the front of the unread bytes. */
  lemma RawInFront(raw: seq<byte>, tail: seq<byte>)
    requires |raw| >= 2 && FromBE(raw[..2]) + 2 == |raw|
    ensures NextChunk(raw + tail) == if |raw| <= BUFFER_SIZE then Chunk(raw) else Stuck
  {
    hide FromBE;
    var u := raw + tail;
    assert u[..2] == raw[..2];
    assert u[..|raw|] == raw;
  }

  /** With at most 65534 bytes of content a chunk that is not complete leaves room in the buffer, so
      the reader is stuck only at the end of the stream. */
  lemma StuckOnlyAtTheEnd(content: seq<byte>, sent: seq<byte>, later: seq<byte>)
    requires |content| <= 65535
    requires sent + later == ToBE(2, |content|) + content
    ensures |content| <= 65534 ==> NextChunk(sent + later) == Chunk(ToBE(2, |content|) + content)
    ensures |content| <= 65534 && later != [] ==> |sent| < BUFFER_SIZE && !NextChunk(sent).Chunk?
    ensures |content| == 65535 ==> NextChunk(sent + later) == Stuck
  {
    hide ToBE, FromBE;
    SmallPowers();
    FromToBE(2, |content|);
    var raw := ToBE(2, |content|) + content;
    assert raw[..2] == ToBE(2, |content|);
    if |sent| >= 2 && later != [] {
      assert sent[..2] == raw[..2];
    }
  }
}
