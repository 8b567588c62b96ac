/** Whole conversations over the encrypted channel: both roles derive their nonces from the exchanged
    connection messages, and each direction is written and read message by message. */
module Sessions {
  import opened Basics
  import opened Bytes
  import opened Nonces
  import opened Chunks
  import opened ChunkBuffers
  import opened Channel

  // ----- sending and receiving several messages -----

  lemma {:induction false} TransmissionSnoc(c: Cipher, nonce: nat, sent: seq<seq<seq<byte>>>, plain: seq<seq<byte>>)
    requires Transmission(c, nonce, sent).Ok? && Sealed(c, NonceAfter(nonce, sent), plain).Ok?
    ensures NonceAfter(nonce, sent + [plain]) == NonceAfter(nonce, sent) + |plain|
    ensures Transmission(c, nonce, sent + [plain])
         == Ok(Transmission(c, nonce, sent).value + Concat(Sealed(c, NonceAfter(nonce, sent), plain).value))
    decreases |sent|
  {
    hide Sealed, Concat;
    var all := sent + [plain];
    if sent == [] {
      assert all == [plain] && all[1..] == [];
      var bytes := Concat(Sealed(c, nonce, plain).value);
      assert Transmission(c, nonce + |plain|, []) == Ok([]);
      assert [] + bytes == bytes && bytes + [] == bytes;
    } else {
      assert all[0] == sent[0] && all[1..] == sent[1..] + [plain];
      TransmissionSnoc(c, nonce + |sent[0]|, sent[1..], plain);
      AppendAssoc(Concat(Sealed(c, nonce, sent[0]).value), Transmission(c, nonce + |sent[0]|, sent[1..]).value,
                  Concat(Sealed(c, NonceAfter(nonce, sent), plain).value));
    }
  }

  /** What sending needs: chunk sizes can be drawn, and there are as many nonces left as bytes. */
  ghost predicate Room(msgs: seq<seq<byte>>, maySplit: bool, maxChunkSize: nat, nonce: nat) {
    && (maySplit && maxChunkSize == 0 ==> forall i :: 0 <= i < |msgs| ==> |msgs[i]| <= 1)
    && nonce + |Concat(msgs)| <= Pow256(NONCE_SIZE)
  }

  /** The first message not written, if not all were: the original panics on it, since it cannot draw
      a chunk size or runs out of nonces. */
  ghost predicate StoppedAt(msgs: seq<seq<byte>>, maySplit: bool, maxChunkSize: nat, next: nat, k: nat) {
    && k < |msgs|
    && ((maySplit && maxChunkSize == 0 && |msgs[k]| > 1) || next + |msgs[k]| > Pow256(NONCE_SIZE))
  }

  lemma StoppedHasNoRoom(msgs: seq<seq<byte>>, maySplit: bool, maxChunkSize: nat, nonce: nat, next: nat, k: nat)
    requires StoppedAt(msgs, maySplit, maxChunkSize, next, k) && next <= nonce + |Concat(msgs[..k])|
    ensures !Room(msgs, maySplit, maxChunkSize, nonce)
  {
    hide Pow256, Concat;
    ConcatSnoc(msgs[..k], msgs[k]);
    assert msgs == (msgs[..k] + [msgs[k]]) + msgs[k + 1..];
    ConcatAppend(msgs[..k] + [msgs[k]], msgs[k + 1..]);
  }

  /** A partition that cannot be sealed needs more nonces than are left. */
  lemma UnsealedHasNoNonces(c: Cipher, nonce: nat, bytes: seq<byte>, plain: seq<seq<byte>>, limit: nat)
    requires Lawful(c) && Partition(bytes, plain, limit) && limit <= MAX_PLAIN && Sealed(c, nonce, plain).Err?
    ensures nonce + |bytes| > Pow256(NONCE_SIZE)
  {
    hide Pow256, Concat, Lawful;
    SealedIff(c, nonce, plain);
    ChunkCount(plain);
  }

  /** Writes messages one after the other until the original would panic. Each is split at drawn places
      or not; without `maySplit`, none is. With `Room` all are written. */
  method SendAll(wire: Wire, msgs: seq<seq<byte>>, maySplit: bool, maxChunkSize: nat, c: Cipher, nonce: nat)
    returns (ok: bool, next: nat, ghost sent: seq<seq<seq<byte>>>)
    modifies wire
    ensures |sent| <= |msgs| && (ok <==> |sent| == |msgs|)
    ensures forall i :: 0 <= i < |sent| ==> Partition(msgs[i], sent[i], MAX_PLAIN)
    ensures !maySplit ==> forall i :: 0 <= i < |sent| ==> sent[i] == Slices(msgs[i], MAX_PLAIN)
    ensures Transmission(c, nonce, sent).Ok? && wire.sent == old(wire.sent) + Transmission(c, nonce, sent).value
    ensures next == NonceAfter(nonce, sent)
    ensures Lawful(c) && !ok ==> StoppedAt(msgs, maySplit, maxChunkSize, next, |sent|)
    ensures Lawful(c) && Room(msgs, maySplit, maxChunkSize, nonce) ==> ok
  {
    hide Sealed, Concat, Partition, Slices, Lawful, Room, Pow256;
    next, sent := nonce, [];
    ghost var before := wire.sent;
    assert before + [] == before;
    for i := 0 to |msgs|
      invariant |sent| == i && next == NonceAfter(nonce, sent) <= nonce + |Concat(msgs[..i])|
      invariant forall j :: 0 <= j < i ==> Partition(msgs[j], sent[j], MAX_PLAIN)
      invariant !maySplit ==> forall j :: 0 <= j < i ==> sent[j] == Slices(msgs[j], MAX_PLAIN)
      invariant Transmission(c, nonce, sent).Ok? && wire.sent == before + Transmission(c, nonce, sent).value
    {
      var split: bool := *;
      split := split && maySplit;
      var written, after, plain := WriteBytesEncrypted(wire, msgs[i], split, maxChunkSize, c, next);
      ghost var limit := if split then MAX_PLAIN - 1 else MAX_PLAIN;
      if !written {
        if Lawful(c) {
          if Sealed(c, next, plain).Err? && Partition(msgs[i], plain, limit) {
            UnsealedHasNoNonces(c, next, msgs[i], plain, limit);
          }
          StoppedHasNoRoom(msgs, maySplit, maxChunkSize, nonce, next, i);
        }
        return false, next, sent;
      }
      PartitionWithin(msgs[i], plain, limit);
      ConcatSnoc(msgs[..i], msgs[i]);
      assert msgs[..i + 1] == msgs[..i] + [msgs[i]];
      TransmissionSnoc(c, nonce, sent, plain);
      AppendAssoc(before, Transmission(c, nonce, sent).value, Concat(Sealed(c, next, plain).value));
      sent := sent + [plain];
      next := after;
    }
    ok := true;
  }

  lemma PartitionWithin(bytes: seq<byte>, plain: seq<seq<byte>>, limit: nat)
    requires Partition(bytes, plain, limit) && limit <= MAX_PLAIN
    ensures Partition(bytes, plain, MAX_PLAIN) && |plain| <= |bytes|
  {
    ChunkCount(plain);
  }

  /** Reads up to `count` messages and stops at the first call that does not return one. */
  method ReceiveAll<M>(stream: Stream, buffer: ChunkBuffer, c: Cipher, parse: seq<byte> -> Option<M>, count: nat,
                       nonce: nat)
    returns (got: seq<M>, next: nat)
    requires buffer.Valid()
    modifies stream, buffer`len, buffer.data
    ensures buffer.Valid()
    ensures (got, buffer.Unread(stream), next)
         == ReceiveMany(c, parse, count, nonce, old(buffer.Unread(stream)))
  {
    hide Receive;
    got, next := [], nonce;
    ghost var first := buffer.Unread(stream);
    ghost var whole := ReceiveMany(c, parse, count, nonce, first);
    assert [] + whole.0 == whole.0;
    for i := 0 to count
      invariant buffer.Valid() && |got| == i
      invariant var (more, rest, last) := ReceiveMany(c, parse, count - i, next, buffer.Unread(stream));
                whole == (got + more, rest, last)
    {
      ghost var (more, rest, last) := ReceiveMany(c, parse, count - i, next, buffer.Unread(stream));
      var r, after := ReadMsg(stream, buffer, c, parse, next, true);
      next := after;
      if !r.Msg? {
        assert more == [] && got + more == got;
        return;
      }
      assert got + more == (got + [r.message]) + more[1..];
      got := got + [r.message];
    }
    assert got + [] == got;
  }

  // ----- both directions -----

  /** What arrives of deliverable messages: all of them, in order, and the reader's nonce is the
      sender's. */
  ghost predicate Arrived<M>(parse: seq<byte> -> Option<M>, msgs: seq<seq<byte>>, got: seq<M>) {
    |got| == |msgs| && forall i :: 0 <= i < |msgs| ==> Some(got[i]) == parse(msgs[i])
  }

  ghost predicate AllDeliverable<M>(parse: seq<byte> -> Option<M>, msgs: seq<seq<byte>>, sent: seq<seq<seq<byte>>>) {
    |sent| == |msgs| && forall i :: 0 <= i < |msgs| ==> Deliverable(parse, msgs[i], sent[i])
  }

  /** Whole messages that fit one chunk with room to spare. */
  ghost predicate Short<M>(parse: seq<byte> -> Option<M>, msgs: seq<seq<byte>>) {
    forall i :: 0 <= i < |msgs| ==> SelfDelimiting(msgs[i]) && parse(msgs[i]).Some? && |msgs[i]| < MAX_PLAIN
  }

  /** Such messages are deliverable as they are. */
  lemma ShortIsDeliverable<M>(parse: seq<byte> -> Option<M>, msgs: seq<seq<byte>>, sent: seq<seq<seq<byte>>>)
    requires Short(parse, msgs) && |sent| == |msgs|
    requires forall i :: 0 <= i < |msgs| ==> sent[i] == Slices(msgs[i], MAX_PLAIN)
    ensures AllDeliverable(parse, msgs, sent)
  {
    hide SelfDelimiting;
    forall i | 0 <= i < |msgs|
      ensures Deliverable(parse, msgs[i], sent[i])
    {
      LongEnough(msgs[i]);
      SlicesPartition(msgs[i], MAX_PLAIN);
      assert sent[i] == [msgs[i]];
      assert Sizes(sent[i])[0] == |msgs[i]|;
    }
  }

  lemma LongEnough(msg: seq<byte>)
    requires SelfDelimiting(msg)
    ensures |msg| >= LENGTH_BYTES
  {
  }

  /** Under the nonces that both roles derive from the exchanged messages, deliverable sequences sent
      under one role's own nonce arrive under the other's remote nonce, in both directions. */
  lemma BothDirections<M>(hash: seq<byte> -> seq<byte>, a: seq<byte>, b: seq<byte>, c: Cipher,
                          parse: seq<byte> -> Option<M>,
                          there: seq<seq<byte>>, sentThere: seq<seq<seq<byte>>>,
                          back: seq<seq<byte>>, sentBack: seq<seq<seq<byte>>>)
    requires Lawful(c) && GenerateNonces(hash, a, b, false).Ok?
    requires AllDeliverable(parse, there, sentThere) && AllDeliverable(parse, back, sentBack)
    ensures GenerateNonces(hash, b, a, true).Ok?
    ensures var x, y := GenerateNonces(hash, a, b, false).value, GenerateNonces(hash, b, a, true).value;
            && (Transmission(c, x.local, sentThere).Ok? ==>
                  var (got, rest, next) :=
                    ReceiveMany(c, parse, |there|, y.remote, Transmission(c, x.local, sentThere).value);
                  Arrived(parse, there, got) && rest == [] && next == NonceAfter(x.local, sentThere))
            && (Transmission(c, y.local, sentBack).Ok? ==>
                  var (got, rest, next) :=
                    ReceiveMany(c, parse, |back|, x.remote, Transmission(c, y.local, sentBack).value);
                  Arrived(parse, back, got) && rest == [] && next == NonceAfter(y.local, sentBack))
  {
    hide GenerateNonces, Transmission, ReceiveMany, NonceAfter, Deliverable, Lawful;
    NoncesMatchCrosswise(hash, a, b);
    var x, y := GenerateNonces(hash, a, b, false).value, GenerateNonces(hash, b, a, true).value;
    if Transmission(c, x.local, sentThere).Ok? {
      OneDirection(c, parse, x.local, there, sentThere);
    }
    if Transmission(c, y.local, sentBack).Ok? {
      OneDirection(c, parse, y.local, back, sentBack);
    }
  }

  lemma OneDirection<M>(c: Cipher, parse: seq<byte> -> Option<M>, nonce: nat, msgs: seq<seq<byte>>,
                        sent: seq<seq<seq<byte>>>)
    requires Lawful(c) && AllDeliverable(parse, msgs, sent) && Transmission(c, nonce, sent).Ok?
    ensures var (got, rest, next) := ReceiveMany(c, parse, |msgs|, nonce, Transmission(c, nonce, sent).value);
            Arrived(parse, msgs, got) && rest == [] && next == NonceAfter(nonce, sent)
  {
    hide Transmission, ReceiveMany, NonceAfter, Deliverable, Lawful;
    var bytes := Transmission(c, nonce, sent).value;
    assert bytes + [] == bytes;
    AllDelivered(c, parse, nonce, msgs, sent, []);
  }

  /** The messages, cut as `sent` says and written from one nonce on, are what was read from the other. */
  ghost predicate Conveyed<M>(c: Cipher, parse: seq<byte> -> Option<M>, msgs: seq<seq<byte>>,
                              sent: seq<seq<seq<byte>>>, local: nat, remote: nat, got: seq<M>) {
    && |sent| <= |msgs| && (forall i :: 0 <= i < |sent| ==> Partition(msgs[i], sent[i], MAX_PLAIN))
    && Transmission(c, local, sent).Ok?
    && got == ReceiveMany(c, parse, |msgs|, remote, Transmission(c, local, sent).value).0
  }

  /** One direction, written by one role and read by the other, for every draw of the sender and every
      fragmentation of the stream: with `Room` everything is written, and if that is deliverable, it
      arrives; short messages that are not split always are. */
  method Deliver<M>(msgs: seq<seq<byte>>, maySplit: bool, maxChunkSize: nat, c: Cipher,
                    parse: seq<byte> -> Option<M>, local: nat, remote: nat)
    returns (ok: bool, got: seq<M>, senderNonce: nat, readerNonce: nat, ghost sent: seq<seq<seq<byte>>>)
    requires Lawful(c)
    ensures Room(msgs, maySplit, maxChunkSize, local) ==> ok
    ensures !ok ==> StoppedAt(msgs, maySplit, maxChunkSize, senderNonce, |sent|)
    ensures Conveyed(c, parse, msgs, sent, local, remote, got) && (ok <==> |sent| == |msgs|)
    ensures ok && local == remote && AllDeliverable(parse, msgs, sent) ==>
              Arrived(parse, msgs, got) && readerNonce == senderNonce == NonceAfter(local, sent)
    ensures ok && local == remote && !maySplit && Short(parse, msgs) ==>
              Arrived(parse, msgs, got) && readerNonce == senderNonce
  {
    hide Transmission, ReceiveMany, NonceAfter, Deliverable, Lawful, Partition, Slices, Short, Room, StoppedAt;
    var wire := new Wire();
    ok, senderNonce, sent := SendAll(wire, msgs, maySplit, maxChunkSize, c, local);
    var stream := new Stream(wire.sent);
    var buffer := new ChunkBuffer();
    assert buffer.Unread(stream) == wire.sent == Transmission(c, local, sent).value;
    got, readerNonce := ReceiveAll(stream, buffer, c, parse, |msgs|, remote);
    if ok && !maySplit && Short(parse, msgs) {
      ShortIsDeliverable(parse, msgs, sent);
    }
    if ok && local == remote && AllDeliverable(parse, msgs, sent) {
      OneDirection(c, parse, local, msgs, sent);
    }
  }

  /** A conversation: both roles derive their nonces from the connection messages, and the messages of
      each arrive at the other, for all draws and fragmentations. */
  method Converse<M>(hash: seq<byte> -> seq<byte>, a: seq<byte>, b: seq<byte>, c: Cipher,
                     parse: seq<byte> -> Option<M>, maySplit: bool, maxChunkSize: nat,
                     there: seq<seq<byte>>, back: seq<seq<byte>>)
    returns (ok: bool, gotThere: seq<M>, gotBack: seq<M>,
             ghost sentThere: seq<seq<seq<byte>>>, ghost sentBack: seq<seq<seq<byte>>>)
    requires Lawful(c)
    ensures ok ==> GenerateNonces(hash, a, b, false).Ok? && GenerateNonces(hash, b, a, true).Ok?
    ensures !ok ==>
              var x, y := GenerateNonces(hash, a, b, false), GenerateNonces(hash, b, a, true);
              || x.Err? || y.Err?
              || !Room(there, maySplit, maxChunkSize, x.value.local)
              || !Room(back, maySplit, maxChunkSize, y.value.local)
    ensures ok ==>
              var x, y := GenerateNonces(hash, a, b, false).value, GenerateNonces(hash, b, a, true).value;
              && |sentThere| == |there| && Conveyed(c, parse, there, sentThere, x.local, y.remote, gotThere)
              && |sentBack| == |back| && Conveyed(c, parse, back, sentBack, y.local, x.remote, gotBack)
    ensures ok && AllDeliverable(parse, there, sentThere) ==> Arrived(parse, there, gotThere)
    ensures ok && AllDeliverable(parse, back, sentBack) ==> Arrived(parse, back, gotBack)
    ensures ok && !maySplit && Short(parse, there) ==> Arrived(parse, there, gotThere)
    ensures ok && !maySplit && Short(parse, back) ==> Arrived(parse, back, gotBack)
  {
    hide GenerateNonces, AllDeliverable, Arrived, Lawful, Short, Room, StoppedAt, Conveyed;
    ok, gotThere, gotBack, sentThere, sentBack := false, [], [], [], [];
    var x := GenerateNonces(hash, a, b, false);
    var y := GenerateNonces(hash, b, a, true);
    NoncesMatchCrosswise(hash, a, b);
    if x.Ok? && y.Ok? {
      var okThere, okBack, s, r;
      okThere, gotThere, s, r, sentThere := Deliver(there, maySplit, maxChunkSize, c, parse, x.value.local,
                                                          y.value.remote);
      okBack, gotBack, s, r, sentBack := Deliver(back, maySplit, maxChunkSize, c, parse, y.value.local,
                                                      x.value.remote);
      ok := okThere && okBack;
    }
  }
}
