/** Peer messages from value to value: serialised by their schema, sent through the encrypted
    channel and parsed by the generated reader. */
module PeerMessages {
  import opened Basics
  import opened Bytes
  import opened Encoder
  import opened NomReader
  import opened Shapes
  import opened Chunks
  import opened Channel
  import NF = NormalForm
  import RT = RoundTrip
  import S = Schema

  type V = S.Value

  /** `from_bytes`: the reader has to use up all the bytes
      (tezos/messages/src/p2p/binary_message.rs). */
  function FromBytes(ir: S.Ir): seq<byte> -> Option<V> {
    (bytes: seq<byte>) =>
      var r := Parse(ir, bytes);
      if r.Done? && r.rest == [] then Some(r.value) else None
  }

  /** A serialised value of a length-prefixed representation says its own length and is parsed back. */
  lemma SerialisedMessage(ir: S.Ir, v: V)
    requires ir.Dynamic? && WF(ir) && Fits(ir, v) && Encode(v, S.Gen(ir)).Ok?
    ensures SelfDelimiting(Encode(v, S.Gen(ir)).value)
    ensures FromBytes(ir)(Encode(v, S.Gen(ir)).value) == Some(Canon(ir, v))
  {
    hide Encode, Parse, Canon, Fits, WF, LengthPrefixed, FromBE;
    var bytes := Encode(v, S.Gen(ir)).value;
    FramedStep(v, S.Gen(ir));
    var block := Encode(v, S.Gen(ir.inner)).value;
    RT.PrefixBack(block, []);
    assert bytes + [] == bytes;
    PrefixLength(block);
    NotGreedy(ir);
    RT.RoundTrip(ir, v, []);
  }

  lemma PrefixLength(s: seq<byte>)
    ensures |LengthPrefixed(s)| == 4 + |s|
  {
  }

  lemma NotGreedy(ir: S.Ir)
    requires ir.Dynamic?
    ensures !Greedy(ir)
  {
  }

  ghost predicate Sendable(ir: S.Ir, v: V, plain: seq<seq<byte>>) {
    && Fits(ir, v) && Encode(v, S.Gen(ir)).Ok?
    && Partition(Encode(v, S.Gen(ir)).value, plain, MAX_PLAIN - 1) && plain != [] && |plain[0]| >= LENGTH_BYTES
  }

  /** Every sequence of values that the writer accepts arrives in order and in normal form, for every
      chunking that keeps the length field together and every fragmentation of the stream. */
  lemma ValuesDelivered(c: Cipher, ir: S.Ir, nonce: nat, values: seq<V>, sent: seq<seq<seq<byte>>>, tail: seq<byte>)
    requires Lawful(c) && ir.Dynamic? && WF(ir) && |values| == |sent| && Transmission(c, nonce, sent).Ok?
    requires forall i :: 0 <= i < |values| ==> Sendable(ir, values[i], sent[i])
    ensures var (got, rest, next) :=
              ReceiveMany(c, FromBytes(ir), |values|, nonce, Transmission(c, nonce, sent).value + tail);
            && |got| == |values| && (forall i :: 0 <= i < |values| ==> got[i] == Canon(ir, values[i]))
            && (forall i :: 0 <= i < |values| && NF.Normal(ir, values[i]) ==> got[i] == values[i])
            && rest == tail && next == NonceAfter(nonce, sent)
  {
    hide Encode, Parse, Canon, Fits, WF, SelfDelimiting, Transmission, ReceiveMany, NF.Normal, FromBytes, Lawful;
    var bytes: seq<seq<byte>> :=
      seq(|values|, i requires 0 <= i < |values| =>
        (assert Sendable(ir, values[i], sent[i]); Encode(values[i], S.Gen(ir)).value));
    forall i | 0 <= i < |values|
      ensures Deliverable(FromBytes(ir), bytes[i], sent[i]) && FromBytes(ir)(bytes[i]) == Some(Canon(ir, values[i]))
      ensures NF.Normal(ir, values[i]) ==> Canon(ir, values[i]) == values[i]
    {
      assert Sendable(ir, values[i], sent[i]);
      SerialisedMessage(ir, values[i]);
      NF.NormalIff(ir, values[i]);
    }
    AllDelivered(c, FromBytes(ir), nonce, bytes, sent, tail);
  }
}
