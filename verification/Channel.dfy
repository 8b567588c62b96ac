/** The encrypted channel from message to message (`write_bytes`, `write_bytes_encrypted` and
    `read_msg`, p2p_fuzzer/src/bin/p2p_fuzzer.rs), with bit flips and early aborts off. */
module Channel {
  import opened Basics
  import opened Bytes
  import opened Nonces
  import opened Chunks
  import opened ChunkBuffers

  const LENGTH_BYTES: nat := 4

  // ----- sending -----

  /** The sending side of a connection. */
  class Wire {
    var sent: seq<byte>

    constructor ()
      ensures sent == []
    {
      sent := [];
    }
  }

  /** Writes the bytes at once or in drawn pieces. */
  method WriteBytes(wire: Wire, bytes: seq<byte>)
    modifies wire
    ensures wire.sent == old(wire.sent) + bytes
  {
    var pieces := [bytes];
    var split: bool := *;
    if split {
      pieces := GenByteChunks(bytes);
    } else {
      assert Concat(pieces) == bytes + Concat([]);
    }
    ghost var before := wire.sent;
    for i := 0 to |pieces|
      invariant wire.sent == before + Concat(pieces[..i])
    {
      ConcatSnoc(pieces[..i], pieces[i]);
      assert pieces[..i + 1] == pieces[..i] + [pieces[i]];
      wire.sent := wire.sent + pieces[i];
    }
    assert pieces[..|pieces|] == pieces;
  }

  method WriteAll(wire: Wire, raws: seq<seq<byte>>)
    modifies wire
    ensures wire.sent == old(wire.sent) + Concat(raws)
  {
    ghost var before := wire.sent;
    for i := 0 to |raws|
      invariant wire.sent == before + Concat(raws[..i])
    {
      ConcatSnoc(raws[..i], raws[i]);
      assert raws[..i + 1] == raws[..i] + [raws[i]];
      WriteBytes(wire, raws[i]);
    }
    assert raws[..|raws|] == raws;
  }

  /** Cuts, encrypts, frames and writes a message. It is not `ok` where the original panics: no chunk
      size can be drawn, or the chunks cannot be sealed. */
  method WriteBytesEncrypted(wire: Wire, bytes: seq<byte>, split: bool, maxChunkSize: nat, c: Cipher, nonce: nat)
    returns (ok: bool, next: nat, ghost plain: seq<seq<byte>>)
    modifies wire
    ensures var drawn := !(split && maxChunkSize == 0 && |bytes| > 1);
            && (drawn ==> Partition(bytes, plain, if split then MAX_PLAIN - 1 else MAX_PLAIN))
            && (drawn && split && |bytes| > 1 ==> Within(Sizes(plain), maxChunkSize))
            && (!split ==> plain == Slices(bytes, MAX_PLAIN))
            && (ok <==> drawn && Sealed(c, nonce, plain).Ok?)
    ensures ok ==> next == nonce + |plain| && wire.sent == old(wire.sent) + Concat(Sealed(c, nonce, plain).value)
    ensures !ok ==> next == nonce && wire.sent == old(wire.sent)
  {
    hide Sealed, Concat, Slices;
    var r: Result<seq<seq<byte>>>;
    if split {
      var drawn, after, cut := GenChunks(bytes, maxChunkSize, c, nonce);
      plain := cut;
      if drawn.None? { return false, nonce, plain; }
      r, next := drawn.value, after;
    } else {
      var cut := CutSlices(bytes, MAX_PLAIN);
      SlicesPartition(bytes, MAX_PLAIN);
      plain := cut;
      r, next := SealEach(c, nonce, cut);
    }
    if r.Err? { return false, nonce, plain; }
    WriteAll(wire, r.value);
    return true, next, plain;
  }

  // ----- receiving -----

  datatype MsgResult<+M> = Msg(message: M) | DecryptError | EndOfStream | Hangs | Panics

  datatype Reading<+M> = Reading(result: MsgResult<M>, rest: seq<byte>, nonce: nat)

  /** What `read_msg` does with the unread bytes, from the state of its loop. */
  function Receive<M>(c: Cipher, parse: seq<byte> -> Option<M>, peer: bool,
                      bytes: seq<byte>, length: nat, nonce: nat, unread: seq<byte>): Reading<M>
    decreases |unread|
  {
    match NextChunk(unread)
    case Eof => Reading(EndOfStream, unread, nonce)
    case Stuck => Reading(Hangs, unread, nonce)
    case Chunk(raw) =>
      var rest := unread[|raw|..];
      (match Decrypt(c, Content(raw), nonce)
       case None => Reading(DecryptError, rest, nonce)
       case Some(plain) =>
         var all := bytes + plain;
         if length == 0 && peer && |all| < LENGTH_BYTES then Reading(Panics, rest, nonce)
         else
           var total := if length == 0 && peer then FromBE(all[..LENGTH_BYTES]) + LENGTH_BYTES else length;
           if (|all| == total || !peer) && parse(all).Some? then Reading(Msg(parse(all).value), rest, nonce + 1)
           else Receive(c, parse, peer, all, total, nonce + 1, rest))
  }

  method ReadMsg<M>(stream: Stream, buffer: ChunkBuffer, c: Cipher, parse: seq<byte> -> Option<M>, nonce: nat,
                    peer: bool)
    returns (r: MsgResult<M>, next: nat)
    requires buffer.Valid()
    modifies stream, buffer`len, buffer.data
    ensures buffer.Valid()
    ensures Reading(r, buffer.Unread(stream), next)
         == Receive(c, parse, peer, [], 0, nonce, old(buffer.Unread(stream)))
  {
    hide NextChunk, Decrypt;
    var bytes: seq<byte>, length: nat := [], 0;
    next := nonce;
    while true
      invariant buffer.Valid()
      invariant Receive(c, parse, peer, bytes, length, next, buffer.Unread(stream))
             == Receive(c, parse, peer, [], 0, nonce, old(buffer.Unread(stream)))
      decreases |buffer.Unread(stream)|
    {
      ghost var unread := buffer.Unread(stream);
      assert unread[0..] == unread;
      var chunk := buffer.ReadChunk(stream);
      match chunk {
        case Eof => return EndOfStream, next;
        case Stuck => return Hangs, next;
        case Chunk(raw) =>
          var decrypted := Decrypt(c, Content(raw), next);
          if decrypted.None? { return DecryptError, next; }
          bytes := bytes + decrypted.value;
          if length == 0 && peer {
            if |bytes| < LENGTH_BYTES { return Panics, next; }
            length := FromBE(bytes[..LENGTH_BYTES]) + LENGTH_BYTES;
          }
          next := Increment(next);
          if |bytes| == length || !peer {
            var m := parse(bytes);
            if m.Some? { return Msg(m.value), next; }
          }
      }
    }
  }

  // ----- one message -----

  /** A message that starts with the length of the rest of it. */
  ghost predicate SelfDelimiting(msg: seq<byte>) {
    |msg| >= LENGTH_BYTES && |msg| == FromBE(msg[..LENGTH_BYTES]) + LENGTH_BYTES
  }

  lemma SealedStep(c: Cipher, nonce: nat, plain: seq<seq<byte>>)
    requires plain != [] && Sealed(c, nonce, plain).Ok?
    ensures Encrypt(c, plain[0], nonce).Ok? && Sealed(c, nonce + 1, plain[1..]).Ok?
    ensures var raws := Sealed(c, nonce, plain).value;
            var content := Encrypt(c, plain[0], nonce).value;
            raws[0] == ToBE(2, |content|) + content && raws[1..] == Sealed(c, nonce + 1, plain[1..]).value
  {
    hide Encrypt, ToBE;
  }

  /** The first chunk on the wire: it decrypts to the first plain chunk, and the buffer takes it
      unless its content has the maximal length. */
  lemma SealedHead(c: Cipher, nonce: nat, plain: seq<seq<byte>>, tail: seq<byte>)
    requires Lawful(c) && plain != [] && Sealed(c, nonce, plain).Ok? && |plain[0]| <= MAX_PLAIN
    ensures Sealed(c, nonce + 1, plain[1..]).Ok?
    ensures var raws := Sealed(c, nonce, plain).value;
            var others := Concat(Sealed(c, nonce + 1, plain[1..]).value);
            && Concat(raws) + tail == raws[0] + (others + tail)
            && |raws[0]| >= 2 && Decrypt(c, Content(raws[0]), nonce) == Some(plain[0])
            && NextChunk(Concat(raws) + tail) == (if |plain[0]| < MAX_PLAIN then Chunk(raws[0]) else Stuck)
            && (Concat(raws) + tail)[|raws[0]|..] == others + tail
  {
    hide Decrypt, Encrypt, NextChunk, ToBE, GetBytes, Pow256, Sealed;
    SealedStep(c, nonce, plain);
    DecryptEncrypt(c, plain[0], nonce);
    var raws := Sealed(c, nonce, plain).value;
    var content := Encrypt(c, plain[0], nonce).value;
    assert Content(raws[0]) == content;
    FrontChunk(content, Concat(raws[1..]) + tail);
    assert Concat(raws) + tail == raws[0] + (Concat(raws[1..]) + tail);
  }

  lemma ReceiveStep<M>(c: Cipher, parse: seq<byte> -> Option<M>, bytes: seq<byte>, length: nat, nonce: nat,
                       unread: seq<byte>, raw: seq<byte>, plain: seq<byte>)
    requires NextChunk(unread) == Chunk(raw) && Decrypt(c, Content(raw), nonce) == Some(plain)
    ensures var all := bytes + plain;
            Receive(c, parse, true, bytes, length, nonce, unread) ==
            if length == 0 && |all| < LENGTH_BYTES then Reading(Panics, unread[|raw|..], nonce)
            else
              var total := if length == 0 then FromBE(all[..LENGTH_BYTES]) + LENGTH_BYTES else length;
              if |all| == total && parse(all).Some? then Reading(Msg(parse(all).value), unread[|raw|..], nonce + 1)
              else Receive(c, parse, true, all, total, nonce + 1, unread[|raw|..])
  {
    hide NextChunk, Decrypt, FromBE;
  }

  lemma ReceiveStuck<M>(c: Cipher, parse: seq<byte> -> Option<M>, bytes: seq<byte>, length: nat, nonce: nat,
                        unread: seq<byte>)
    requires NextChunk(unread) == Stuck
    ensures Receive(c, parse, true, bytes, length, nonce, unread) == Reading(Hangs, unread, nonce)
  {
    hide NextChunk, Decrypt, FromBE;
  }

  lemma {:induction false} LongerThanNothing(plain: seq<seq<byte>>)
    requires plain != [] && Positive(Sizes(plain))
    ensures |Concat(plain)| > 0
  {
    assert Sizes(plain)[0] == |plain[0]|;
  }

  /** The chunks after the first: the message comes out exactly when none has the maximal length. */
  lemma {:induction false} RemainingChunks<M>(c: Cipher, parse: seq<byte> -> Option<M>, nonce: nat, done: seq<byte>,
                                              plain: seq<seq<byte>>, msg: seq<byte>, tail: seq<byte>)
    requires Lawful(c) && Sealed(c, nonce, plain).Ok? && plain != []
    requires Positive(Sizes(plain)) && Within(Sizes(plain), MAX_PLAIN)
    requires msg == done + Concat(plain) && parse(msg).Some? && |msg| > 0
    ensures Receive(c, parse, true, done, |msg|, nonce, Concat(Sealed(c, nonce, plain).value) + tail)
         == Reading(Msg(parse(msg).value), tail, nonce + |plain|)
       <==> Within(Sizes(plain), MAX_PLAIN - 1)
    decreases |plain|
  {
    hide Receive, NextChunk, Decrypt, Sealed;
    assert Sizes(plain)[0] == |plain[0]|;
    SealedHead(c, nonce, plain, tail);
    var raws := Sealed(c, nonce, plain).value;
    var unread := Concat(raws) + tail;
    if |plain[0]| == MAX_PLAIN {
      ReceiveStuck(c, parse, done, |msg|, nonce, unread);
    } else {
      ReceiveStep(c, parse, done, |msg|, nonce, unread, raws[0], plain[0]);
      SizesTail(plain);
      var all := done + plain[0];
      assert msg == all + Concat(plain[1..]);
      if |plain| == 1 {
        assert plain[1..] == [] && all == msg;
        NothingSealed(c, nonce + 1, tail);
      } else {
        LongerThanNothing(plain[1..]);
        RemainingChunks(c, parse, nonce + 1, all, plain[1..], msg, tail);
      }
    }
  }

  lemma NothingSealed(c: Cipher, nonce: nat, tail: seq<byte>)
    ensures Sealed(c, nonce, []) == Ok([]) && Concat([]) + tail == tail
  {
  }

  lemma SizesTail(plain: seq<seq<byte>>)
    requires plain != []
    ensures Sizes(plain[1..]) == Sizes(plain)[1..]
    ensures forall limit :: Within(Sizes(plain), limit) <==> |plain[0]| <= limit && Within(Sizes(plain[1..]), limit)
    ensures Positive(Sizes(plain)) ==> Positive(Sizes(plain[1..]))
  {
    var sizes := Sizes(plain);
    assert Sizes(plain[1..]) == sizes[1..];
    forall limit
      ensures Within(sizes, limit) <==> sizes[0] <= limit && Within(sizes[1..], limit)
    {
      assert forall i :: 1 <= i < |sizes| ==> sizes[i] == sizes[1..][i - 1];
    }
  }

  /** A message cut into non-empty chunks within the sender's limit is received whole, with the
      reader's nonce at the sender's, exactly when the first chunk carries the whole length field
      and no chunk has the maximal length: a chunk of that length does not fit the buffer. */
  lemma DeliveredIff<M>(c: Cipher, parse: seq<byte> -> Option<M>, nonce: nat, msg: seq<byte>,
                        plain: seq<seq<byte>>, tail: seq<byte>)
    requires Lawful(c) && Sealed(c, nonce, plain).Ok? && Partition(msg, plain, MAX_PLAIN)
    requires SelfDelimiting(msg) && parse(msg).Some?
    ensures plain != []
    ensures Receive(c, parse, true, [], 0, nonce, Concat(Sealed(c, nonce, plain).value) + tail)
         == Reading(Msg(parse(msg).value), tail, nonce + |plain|)
       <==> |plain[0]| >= LENGTH_BYTES && Within(Sizes(plain), MAX_PLAIN - 1)
  {
    hide Receive, NextChunk, Decrypt, Sealed, FromBE;
    assert plain != [];
    assert Sizes(plain)[0] == |plain[0]|;
    SealedHead(c, nonce, plain, tail);
    SizesTail(plain);
    var raws := Sealed(c, nonce, plain).value;
    var unread := Concat(raws) + tail;
    if |plain[0]| == MAX_PLAIN {
      ReceiveStuck(c, parse, [], 0, nonce, unread);
    } else {
      ReceiveStep(c, parse, [], 0, nonce, unread, raws[0], plain[0]);
      assert [] + plain[0] == plain[0];
      if |plain[0]| >= LENGTH_BYTES {
        assert msg == plain[0] + Concat(plain[1..]);
        assert msg[..LENGTH_BYTES] == plain[0][..LENGTH_BYTES];
        if |plain| == 1 {
          assert plain[1..] == [] && plain[0] == msg;
          NothingSealed(c, nonce + 1, tail);
        } else {
          LongerThanNothing(plain[1..]);
          RemainingChunks(c, parse, nonce + 1, plain[0], plain[1..], msg, tail);
        }
      }
    }
  }

  /** Without splitting, a message is received exactly when it is shorter than one full chunk. */
  lemma UnsplitDeliveredIff<M>(c: Cipher, parse: seq<byte> -> Option<M>, nonce: nat, msg: seq<byte>, tail: seq<byte>)
    requires Lawful(c) && Sealed(c, nonce, Slices(msg, MAX_PLAIN)).Ok? && SelfDelimiting(msg) && parse(msg).Some?
    ensures var plain := Slices(msg, MAX_PLAIN);
            (Receive(c, parse, true, [], 0, nonce, Concat(Sealed(c, nonce, plain).value) + tail)
             == Reading(Msg(parse(msg).value), tail, nonce + |plain|)
             <==> |msg| < MAX_PLAIN)
  {
    hide Receive, Sealed, FromBE;
    var plain := Slices(msg, MAX_PLAIN);
    SlicesPartition(msg, MAX_PLAIN);
    DeliveredIff(c, parse, nonce, msg, plain, tail);
    assert Sizes(plain)[0] == |plain[0]|;
    if |msg| <= MAX_PLAIN {
      assert plain == [msg];
    }
  }

  // ----- messages that do not arrive -----

  /** Whatever was read before: a chunk that does not open ends the read with the nonce unchanged, and
      so does the end of the stream, inside a chunk or before it. */
  lemma ReceiveFails<M>(c: Cipher, parse: seq<byte> -> Option<M>, peer: bool, bytes: seq<byte>, length: nat, nonce: nat,
                        unread: seq<byte>)
    ensures var r := Receive(c, parse, peer, bytes, length, nonce, unread);
            match NextChunk(unread)
            case Eof => r == Reading(EndOfStream, unread, nonce)
            case Stuck => r == Reading(Hangs, unread, nonce)
            case Chunk(raw) =>
              Decrypt(c, Content(raw), nonce).None? ==> r == Reading(DecryptError, unread[|raw|..], nonce)
  {
    hide NextChunk, Decrypt, FromBE;
  }

  /** Chunks from the middle of a message are taken in, and nothing is returned yet. */
  lemma {:induction false} Underway<M>(c: Cipher, parse: seq<byte> -> Option<M>, nonce: nat, done: seq<byte>,
                                       part: seq<seq<byte>>, length: nat, tail: seq<byte>)
    requires Lawful(c) && Sealed(c, nonce, part).Ok? && Within(Sizes(part), MAX_PLAIN - 1)
    requires |done| + |Concat(part)| < length
    ensures Receive(c, parse, true, done, length, nonce, Concat(Sealed(c, nonce, part).value) + tail)
         == Receive(c, parse, true, done + Concat(part), length, nonce + |part|, tail)
    decreases |part|
  {
    hide Receive, NextChunk, Decrypt, Sealed;
    if part == [] {
      NothingSealed(c, nonce, tail);
      assert done + Concat(part) == done;
    } else {
      assert Sizes(part)[0] == |part[0]|;
      SealedHead(c, nonce, part, tail);
      SizesTail(part);
      var raws := Sealed(c, nonce, part).value;
      ReceiveStep(c, parse, done, length, nonce, Concat(raws) + tail, raws[0], part[0]);
      AppendAssoc(done, part[0], Concat(part[1..]));
      Underway(c, parse, nonce + 1, done + part[0], part[1..], length, tail);
    }
  }

  /** A message of which only a part arrives as it was sent. The part is taken in, and the read ends as
      the bytes behind it say: with an error and the nonce of the chunk that does not open, or where
      the stream ends. */
  lemma Interrupted<M>(c: Cipher, parse: seq<byte> -> Option<M>, nonce: nat, msg: seq<byte>, part: seq<seq<byte>>,
                       tail: seq<byte>)
    requires Lawful(c) && Sealed(c, nonce, part).Ok? && SelfDelimiting(msg)
    requires Concat(part) <= msg && Concat(part) != msg && Within(Sizes(part), MAX_PLAIN - 1)
    requires part != [] ==> |part[0]| >= LENGTH_BYTES
    ensures var r := Receive(c, parse, true, [], 0, nonce, Concat(Sealed(c, nonce, part).value) + tail);
            var next := nonce + |part|;
            match NextChunk(tail)
            case Eof => r == Reading(EndOfStream, tail, next)
            case Stuck => r == Reading(Hangs, tail, next)
            case Chunk(raw) =>
              Decrypt(c, Content(raw), next).None? ==> r == Reading(DecryptError, tail[|raw|..], next)
  {
    hide Receive, NextChunk, Decrypt, Sealed, FromBE;
    if part == [] {
      NothingSealed(c, nonce, tail);
      ReceiveFails(c, parse, true, [], 0, nonce, tail);
    } else {
      assert Sizes(part)[0] == |part[0]|;
      SealedHead(c, nonce, part, tail);
      SizesTail(part);
      var raws := Sealed(c, nonce, part).value;
      ReceiveStep(c, parse, [], 0, nonce, Concat(raws) + tail, raws[0], part[0]);
      assert [] + part[0] == part[0];
      assert msg[..LENGTH_BYTES] == part[0][..LENGTH_BYTES] by { Beginning(msg, part); }
      Underway(c, parse, nonce + 1, part[0], part[1..], |msg|, tail);
      ReceiveFails(c, parse, true, Concat(part), |msg|, nonce + |part|, tail);
    }
  }

  lemma Beginning(msg: seq<byte>, part: seq<seq<byte>>)
    requires part != [] && Concat(part) <= msg && |part[0]| >= LENGTH_BYTES
    ensures |msg| >= LENGTH_BYTES && msg[..LENGTH_BYTES] == part[0][..LENGTH_BYTES]
  {
    assert part[0] == Concat(part)[..|part[0]|];
  }

  /** A first chunk that is too short for the length field makes `read_msg` panic. */
  lemma ShortFirstChunkPanics<M>(c: Cipher, parse: seq<byte> -> Option<M>, nonce: nat, plain: seq<seq<byte>>,
                                 tail: seq<byte>)
    requires Lawful(c) && plain != [] && Sealed(c, nonce, plain).Ok? && |plain[0]| < LENGTH_BYTES
    ensures Receive(c, parse, true, [], 0, nonce, Concat(Sealed(c, nonce, plain).value) + tail).result == Panics
  {
    hide Receive, NextChunk, Decrypt, Sealed, FromBE;
    SealedHead(c, nonce, plain, tail);
    var raws := Sealed(c, nonce, plain).value;
    ReceiveStep(c, parse, [], 0, nonce, Concat(raws) + tail, raws[0], plain[0]);
    assert [] + plain[0] == plain[0];
  }

  /** Once as many bytes as announced are there and do not parse, or more, nothing is returned any more,
      whatever follows. */
  lemma {:induction false} TooLate<M>(c: Cipher, parse: seq<byte> -> Option<M>, bytes: seq<byte>, length: nat, nonce: nat,
                                      unread: seq<byte>)
    requires 0 < length <= |bytes| && (|bytes| == length ==> parse(bytes).None?)
    ensures !Receive(c, parse, true, bytes, length, nonce, unread).result.Msg?
    decreases |unread|
  {
    hide Receive, NextChunk, Decrypt, FromBE;
    ReceiveFails(c, parse, true, bytes, length, nonce, unread);
    match NextChunk(unread)
    case Chunk(raw) =>
      var plain := Decrypt(c, Content(raw), nonce);
      if plain.Some? {
        var all := bytes + plain.value;
        ReceiveStep(c, parse, bytes, length, nonce, unread, raw, plain.value);
        assert |all| == length ==> all == bytes;
        TooLate(c, parse, all, length, nonce + 1, unread[|raw|..]);
      }
    case _ =>
  }

  lemma {:induction false} RemainingUnparsed<M>(c: Cipher, parse: seq<byte> -> Option<M>, nonce: nat, done: seq<byte>,
                                                plain: seq<seq<byte>>, msg: seq<byte>, tail: seq<byte>)
    requires Lawful(c) && Sealed(c, nonce, plain).Ok? && Within(Sizes(plain), MAX_PLAIN)
    requires msg == done + Concat(plain) && parse(msg).None? && |msg| > 0
    ensures !Receive(c, parse, true, done, |msg|, nonce, Concat(Sealed(c, nonce, plain).value) + tail).result.Msg?
    decreases |plain|
  {
    hide Receive, NextChunk, Decrypt, Sealed;
    if plain == [] {
      NothingSealed(c, nonce, tail);
      assert msg == done;
      TooLate(c, parse, done, |msg|, nonce, tail);
    } else {
      assert Sizes(plain)[0] == |plain[0]|;
      SealedHead(c, nonce, plain, tail);
      SizesTail(plain);
      var raws := Sealed(c, nonce, plain).value;
      var unread := Concat(raws) + tail;
      if |plain[0]| == MAX_PLAIN {
        ReceiveStuck(c, parse, done, |msg|, nonce, unread);
      } else {
        ReceiveStep(c, parse, done, |msg|, nonce, unread, raws[0], plain[0]);
        var all := done + plain[0];
        AppendAssoc(done, plain[0], Concat(plain[1..]));
        assert |all| == |msg| ==> all == msg;
        RemainingUnparsed(c, parse, nonce + 1, all, plain[1..], msg, tail);
      }
    }
  }

  /** A message that arrives whole and does not parse is never answered: however it was cut and
      whatever follows, the reader goes on and returns nothing. */
  lemma UnparsedIsNeverReturned<M>(c: Cipher, parse: seq<byte> -> Option<M>, nonce: nat, msg: seq<byte>,
                                   plain: seq<seq<byte>>, tail: seq<byte>)
    requires Lawful(c) && Sealed(c, nonce, plain).Ok? && Partition(msg, plain, MAX_PLAIN)
    requires SelfDelimiting(msg) && parse(msg).None?
    ensures !Receive(c, parse, true, [], 0, nonce, Concat(Sealed(c, nonce, plain).value) + tail).result.Msg?
  {
    hide Receive, NextChunk, Decrypt, Sealed, FromBE;
    assert plain != [];
    assert Sizes(plain)[0] == |plain[0]|;
    SealedHead(c, nonce, plain, tail);
    SizesTail(plain);
    var raws := Sealed(c, nonce, plain).value;
    var unread := Concat(raws) + tail;
    if |plain[0]| == MAX_PLAIN {
      ReceiveStuck(c, parse, [], 0, nonce, unread);
    } else {
      ReceiveStep(c, parse, [], 0, nonce, unread, raws[0], plain[0]);
      assert [] + plain[0] == plain[0];
      if |plain[0]| >= LENGTH_BYTES {
        assert msg == plain[0] + Concat(plain[1..]);
        assert msg[..LENGTH_BYTES] == plain[0][..LENGTH_BYTES];
        assert |plain[0]| == |msg| ==> plain[0] == msg;
        RemainingUnparsed(c, parse, nonce + 1, plain[0], plain[1..], msg, tail);
      }
    }
  }

  // ----- sequences of messages -----

  /** The bytes of messages sent one after the other, each given by its chunks. */
  ghost function Transmission(c: Cipher, nonce: nat, sent: seq<seq<seq<byte>>>): Result<seq<byte>>
    decreases |sent|
  {
    if sent == [] then Ok([])
    else
      var first, others := Sealed(c, nonce, sent[0]), Transmission(c, nonce + |sent[0]|, sent[1..]);
      if first.Ok? && others.Ok? then Ok(Concat(first.value) + others.value) else Err
  }

  /** The sender's nonce after `sent`. */
  ghost function NonceAfter(nonce: nat, sent: seq<seq<seq<byte>>>): nat
    decreases |sent|
  {
    if sent == [] then nonce else NonceAfter(nonce + |sent[0]|, sent[1..])
  }

  /** Up to `count` calls of `read_msg` in a row; stops at the first that does not return. */
  ghost function ReceiveMany<M>(c: Cipher, parse: seq<byte> -> Option<M>, count: nat, nonce: nat, unread: seq<byte>)
    : (seq<M>, seq<byte>, nat)
    decreases count
  {
    if count == 0 then ([], unread, nonce)
    else
      var r := Receive(c, parse, true, [], 0, nonce, unread);
      if !r.result.Msg? then ([], r.rest, r.nonce)
      else
        var (more, rest, next) := ReceiveMany(c, parse, count - 1, r.nonce, r.rest);
        ([r.result.message] + more, rest, next)
  }

  ghost predicate Deliverable<M>(parse: seq<byte> -> Option<M>, msg: seq<byte>, plain: seq<seq<byte>>) {
    && SelfDelimiting(msg) && parse(msg).Some?
    && Partition(msg, plain, MAX_PLAIN - 1) && plain != [] && |plain[0]| >= LENGTH_BYTES
  }

  /** Every sequence of deliverable messages comes out in order, followed by whatever came after it,
      and both sides end with the same nonce. */
  lemma {:induction false} AllDelivered<M>(c: Cipher, parse: seq<byte> -> Option<M>, nonce: nat,
                                           msgs: seq<seq<byte>>, sent: seq<seq<seq<byte>>>, tail: seq<byte>)
    requires Lawful(c) && |msgs| == |sent| && Transmission(c, nonce, sent).Ok?
    requires forall i :: 0 <= i < |msgs| ==> Deliverable(parse, msgs[i], sent[i])
    ensures var (got, rest, next) := ReceiveMany(c, parse, |msgs|, nonce, Transmission(c, nonce, sent).value + tail);
            && |got| == |msgs| && (forall i :: 0 <= i < |msgs| ==> Some(got[i]) == parse(msgs[i]))
            && rest == tail && next == NonceAfter(nonce, sent)
    decreases |msgs|
  {
    hide Receive, Sealed, Concat;
    if msgs == [] {
      assert Transmission(c, nonce, sent).value + tail == tail;
    } else {
      assert Deliverable(parse, msgs[0], sent[0]);
      var others := Transmission(c, nonce + |sent[0]|, sent[1..]).value;
      var first := Concat(Sealed(c, nonce, sent[0]).value);
      assert (first + others) + tail == first + (others + tail);
      DeliveredIff(c, parse, nonce, msgs[0], sent[0], others + tail);
      AllDelivered(c, parse, nonce + |sent[0]|, msgs[1..], sent[1..], tail);
    }
  }

  /** What was sent first is received first, also part of the way: cutting a transmission. */
  lemma {:induction false} TransmissionSplit(c: Cipher, nonce: nat, sent: seq<seq<seq<byte>>>, k: nat)
    requires k <= |sent| && Transmission(c, nonce, sent).Ok?
    ensures Transmission(c, nonce, sent[..k]).Ok?
    ensures Transmission(c, NonceAfter(nonce, sent[..k]), sent[k..]).Ok?
    ensures Transmission(c, nonce, sent).value
         == Transmission(c, nonce, sent[..k]).value
            + Transmission(c, NonceAfter(nonce, sent[..k]), sent[k..]).value
    decreases k
  {
    hide Sealed, Concat;
    if k == 0 {
      assert sent[..0] == [] && sent[0..] == sent;
      var all := Transmission(c, nonce, sent).value;
      assert [] + all == all;
    } else {
      var head := sent[..k];
      assert head[0] == sent[0] && head[1..] == sent[1..][..k - 1] && sent[k..] == sent[1..][k - 1..];
      TransmissionSplit(c, nonce + |sent[0]|, sent[1..], k - 1);
      var first := Concat(Sealed(c, nonce, sent[0]).value);
      AppendAssoc(first, Transmission(c, nonce + |sent[0]|, head[1..]).value,
                  Transmission(c, NonceAfter(nonce, head), sent[k..]).value);
    }
  }

  /** After each message the reader's nonce is the sender's, and the unread bytes are those of the
      messages that follow. */
  lemma NoncesAgreeAfterEach<M>(c: Cipher, parse: seq<byte> -> Option<M>, nonce: nat,
                                msgs: seq<seq<byte>>, sent: seq<seq<seq<byte>>>, k: nat, tail: seq<byte>)
    requires Lawful(c) && |msgs| == |sent| && k <= |msgs| && Transmission(c, nonce, sent).Ok?
    requires forall i :: 0 <= i < |msgs| ==> Deliverable(parse, msgs[i], sent[i])
    ensures Transmission(c, NonceAfter(nonce, sent[..k]), sent[k..]).Ok?
    ensures var (got, rest, next) := ReceiveMany(c, parse, k, nonce, Transmission(c, nonce, sent).value + tail);
            && |got| == k
            && next == NonceAfter(nonce, sent[..k])
            && rest == Transmission(c, next, sent[k..]).value + tail
  {
    hide Transmission, ReceiveMany, NonceAfter, Deliverable, Lawful;
    TransmissionSplit(c, nonce, sent, k);
    var before := Transmission(c, nonce, sent[..k]).value;
    var after := Transmission(c, NonceAfter(nonce, sent[..k]), sent[k..]).value;
    AppendAssoc(before, after, tail);
    AllDelivered(c, parse, nonce, msgs[..k], sent[..k], after + tail);
  }

  // ----- messages without a length field -----

  /** No proper part of the message that ends with a chunk parses as a message. */
  ghost predicate ParsesLast<M>(parse: seq<byte> -> Option<M>, done: seq<byte>, plain: seq<seq<byte>>)
    decreases |plain|
  {
    |plain| > 1 ==> parse(done + plain[0]).None? && ParsesLast(parse, done + plain[0], plain[1..])
  }

  lemma HandshakeStep<M>(c: Cipher, parse: seq<byte> -> Option<M>, bytes: seq<byte>, nonce: nat,
                         unread: seq<byte>, raw: seq<byte>, plain: seq<byte>)
    requires NextChunk(unread) == Chunk(raw) && Decrypt(c, Content(raw), nonce) == Some(plain)
    ensures var all := bytes + plain;
            Receive(c, parse, false, bytes, 0, nonce, unread) ==
            if parse(all).Some? then Reading(Msg(parse(all).value), unread[|raw|..], nonce + 1)
            else Receive(c, parse, false, all, 0, nonce + 1, unread[|raw|..])
  {
    hide NextChunk, Decrypt;
  }

  lemma HandshakeStuck<M>(c: Cipher, parse: seq<byte> -> Option<M>, bytes: seq<byte>, nonce: nat, unread: seq<byte>)
    requires NextChunk(unread) == Stuck
    ensures Receive(c, parse, false, bytes, 0, nonce, unread) == Reading(Hangs, unread, nonce)
  {
    hide NextChunk, Decrypt;
  }

  /** Without a length field the reader tries to parse after every chunk: the message is returned
      exactly when no chunk has the maximal length and no earlier part of it parses. */
  lemma {:induction false} HandshakeDeliveredIff<M>(c: Cipher, parse: seq<byte> -> Option<M>, nonce: nat,
                                                    done: seq<byte>, plain: seq<seq<byte>>, msg: seq<byte>,
                                                    tail: seq<byte>)
    requires Lawful(c) && Sealed(c, nonce, plain).Ok? && plain != []
    requires Within(Sizes(plain), MAX_PLAIN) && msg == done + Concat(plain) && parse(msg).Some?
    ensures Receive(c, parse, false, done, 0, nonce, Concat(Sealed(c, nonce, plain).value) + tail)
         == Reading(Msg(parse(msg).value), tail, nonce + |plain|)
       <==> ParsesLast(parse, done, plain) && Within(Sizes(plain), MAX_PLAIN - 1)
    decreases |plain|
  {
    hide Receive, NextChunk, Decrypt, Sealed;
    assert Sizes(plain)[0] == |plain[0]|;
    SealedHead(c, nonce, plain, tail);
    SizesTail(plain);
    var raws := Sealed(c, nonce, plain).value;
    var unread := Concat(raws) + tail;
    if |plain[0]| == MAX_PLAIN {
      HandshakeStuck(c, parse, done, nonce, unread);
    } else {
      HandshakeStep(c, parse, done, nonce, unread, raws[0], plain[0]);
      var all := done + plain[0];
      assert msg == all + Concat(plain[1..]);
      if |plain| == 1 {
        assert plain[1..] == [] && all == msg;
        NothingSealed(c, nonce + 1, tail);
      } else if parse(all).None? {
        HandshakeDeliveredIff(c, parse, nonce + 1, all, plain[1..], msg, tail);
      }
    }
  }
}
