/** Nonces: a counter with a 24-byte form (crypto/src/nonce.rs). */
module Nonces {
  import opened Basics
  import opened Bytes

  const NONCE_SIZE: nat := 24

  /** The ends of the digested text that separate the two directions. */
  const INIT_TO_RESP_SEED: seq<byte> := [0x49, 0x6E, 0x69, 0x74, 0x20, 0x2D, 0x3E, 0x20, 0x52, 0x65, 0x73, 0x70]
  const RESP_TO_INIT_SEED: seq<byte> := [0x52, 0x65, 0x73, 0x70, 0x20, 0x2D, 0x3E, 0x20, 0x49, 0x6E, 0x69, 0x74]

  function New(bytes: seq<byte>): nat { FromBE(bytes) }

  function Increment(value: nat): nat { value + 1 }

  /** `BigUint::to_bytes_be`: no leading zeros, one byte for zero. */
  function Minimal(value: nat): (bs: seq<byte>)
    ensures bs != []
  {
    if value < 256 then [value] else Minimal(value / 256) + [value % 256]
  }

  function Zeros(k: nat): (z: seq<byte>)
    ensures |z| == k
  {
    if k == 0 then [] else [0] + Zeros(k - 1)
  }

  function GetBytes(value: nat): Result<seq<byte>> {
    var bytes := Minimal(value);
    if |bytes| == NONCE_SIZE then Ok(bytes)
    else if |bytes| < NONCE_SIZE then Ok(Zeros(NONCE_SIZE - |bytes|) + bytes)
    else Err
  }

  lemma {:induction false} MinimalFits(k: nat, value: nat)
    requires k > 0
    ensures |Minimal(value)| <= k <==> value < Pow256(k)
  {
    if value >= 256 {
      if k > 1 {
        MinimalFits(k - 1, value / 256);
      } else {
        assert Pow256(1) == 256;
        assert |Minimal(value)| == |Minimal(value / 256)| + 1;
      }
    }
  }

  lemma {:induction false} ZerosAreBE(k: nat)
    ensures ToBE(k, 0) == Zeros(k)
  {
    if k > 0 {
      ZerosAreBE(k - 1);
      ZerosSnoc(k - 1);
    }
  }

  lemma {:induction false} ZerosSnoc(k: nat)
    ensures Zeros(k) + [0] == [0] + Zeros(k)
  {
    if k > 0 { ZerosSnoc(k - 1); }
  }

  lemma {:induction false} PaddedIsBE(k: nat, value: nat)
    requires |Minimal(value)| <= k
    ensures Zeros(k - |Minimal(value)|) + Minimal(value) == ToBE(k, value)
  {
    if value < 256 {
      ZerosAreBE(k - 1);
      assert value / 256 == 0;
    } else {
      PaddedIsBE(k - 1, value / 256);
      var m := Minimal(value / 256);
      assert (Zeros(k - |m| - 1) + m) + [value % 256] == Zeros(k - |m| - 1) + (m + [value % 256]);
    }
  }

  /** The 24-byte form exists exactly below 2^192, and it is the value in big-endian order. */
  lemma GetBytesMeaning(value: nat)
    ensures GetBytes(value).Ok? <==> value < Pow256(NONCE_SIZE)
    ensures GetBytes(value).Ok? ==> GetBytes(value).value == ToBE(NONCE_SIZE, value)
    ensures GetBytes(value).Ok? ==> |GetBytes(value).value| == NONCE_SIZE && New(GetBytes(value).value) == value
  {
    hide Minimal, ToBE, FromBE, Pow256;
    MinimalFits(NONCE_SIZE, value);
    if |Minimal(value)| <= NONCE_SIZE {
      PaddedIsBE(NONCE_SIZE, value);
      assert Zeros(0) + Minimal(value) == Minimal(value);
      FromToBE(NONCE_SIZE, value);
    }
  }

  /** The bytes of different nonces differ. */
  lemma NoncesNeverRepeat(a: nat, b: nat)
    requires a != b && GetBytes(a).Ok? && GetBytes(b).Ok?
    ensures GetBytes(a).value != GetBytes(b).value
  {
    hide GetBytes, FromBE;
    GetBytesMeaning(a);
    GetBytesMeaning(b);
  }

  // ----- starting nonces -----

  datatype NoncePair = NoncePair(local: nat, remote: nat)

  /** `hash` stands for the 256-bit digest; the first 24 bytes of it are used. */
  function GenerateNonces(hash: seq<byte> -> seq<byte>, sent: seq<byte>, received: seq<byte>, incoming: bool)
    : Result<NoncePair>
  {
    var init := if incoming then received else sent;
    var resp := if incoming then sent else received;
    var there := hash(init + resp + INIT_TO_RESP_SEED);
    var back := hash(init + resp + RESP_TO_INIT_SEED);
    if |there| < NONCE_SIZE || |back| < NONCE_SIZE then Err
    else
      var initToResp, respToInit := New(there[..NONCE_SIZE]), New(back[..NONCE_SIZE]);
      Ok(if incoming then NoncePair(initToResp, respToInit) else NoncePair(respToInit, initToResp))
  }

  /** What one role takes for its own nonce, the other role takes for its peer's, in both
      directions, and both are in the range that has a 24-byte form. */
  lemma NoncesMatchCrosswise(hash: seq<byte> -> seq<byte>, a: seq<byte>, b: seq<byte>)
    ensures var x, y := GenerateNonces(hash, a, b, false), GenerateNonces(hash, b, a, true);
            && x.Ok? == y.Ok?
            && (x.Ok? ==>
                  && x.value.local == y.value.remote && x.value.remote == y.value.local
                  && GetBytes(x.value.local).Ok? && GetBytes(x.value.remote).Ok?)
  {
    hide GetBytes, Pow256;
    var x := GenerateNonces(hash, a, b, false);
    if x.Ok? {
      GetBytesMeaning(x.value.local);
      GetBytesMeaning(x.value.remote);
    }
  }

  /** Where the two nonces of a role come from, byte by byte: the text digested is the initiator's
      message, the responder's message and the direction in words, and 24 bytes of the digest are
      taken. Each role uses for itself the direction it does not name first. */
  lemma StartingNonces(hash: seq<byte> -> seq<byte>, init: seq<byte>, resp: seq<byte>)
    ensures var there, back := hash(init + resp + Ascii("Init -> Resp")), hash(init + resp + Ascii("Resp -> Init"));
            var initiator, responder := GenerateNonces(hash, init, resp, false), GenerateNonces(hash, resp, init, true);
            && (initiator.Ok? <==> |there| >= NONCE_SIZE && |back| >= NONCE_SIZE)
            && (responder.Ok? <==> initiator.Ok?)
            && (initiator.Ok? ==>
                  && GetBytes(initiator.value.local) == Ok(back[..NONCE_SIZE])
                  && GetBytes(initiator.value.remote) == Ok(there[..NONCE_SIZE])
                  && GetBytes(responder.value.local) == Ok(there[..NONCE_SIZE])
                  && GetBytes(responder.value.remote) == Ok(back[..NONCE_SIZE]))
  {
    hide GetBytes, FromBE;
    assert INIT_TO_RESP_SEED == Ascii("Init -> Resp") && RESP_TO_INIT_SEED == Ascii("Resp -> Init");
    var there, back := hash(init + resp + INIT_TO_RESP_SEED), hash(init + resp + RESP_TO_INIT_SEED);
    if |there| >= NONCE_SIZE && |back| >= NONCE_SIZE {
      BytesOfNew(there[..NONCE_SIZE]);
      BytesOfNew(back[..NONCE_SIZE]);
    }
  }

  lemma BytesOfNew(bytes: seq<byte>)
    requires |bytes| == NONCE_SIZE
    ensures GetBytes(New(bytes)) == Ok(bytes)
  {
    hide GetBytes, FromBE, ToBE;
    GetBytesMeaning(New(bytes));
    ToFromBE(bytes);
  }

  /** A digest whose first 24 bytes tell different texts apart. */
  ghost predicate Separating(hash: seq<byte> -> seq<byte>) {
    && (forall s: seq<byte> :: |hash(s)| >= NONCE_SIZE)
    && (forall s: seq<byte>, t: seq<byte> :: s != t ==> hash(s)[..NONCE_SIZE] != hash(t)[..NONCE_SIZE])
  }

  /** Under such a digest the two directions start from different nonces, and so do conversations
      whose exchanged messages differ. */
  lemma DirectionsDiffer(hash: seq<byte> -> seq<byte>, init: seq<byte>, resp: seq<byte>, init': seq<byte>, resp': seq<byte>)
    requires Separating(hash)
    ensures var x, y := GenerateNonces(hash, init, resp, false), GenerateNonces(hash, init', resp', false);
            && x.Ok? && y.Ok?
            && x.value.local != x.value.remote
            && x.value.local != y.value.remote
            && (init + resp != init' + resp' ==> x.value.local != y.value.local && x.value.remote != y.value.remote)
  {
    hide GenerateNonces, GetBytes;
    StartingNonces(hash, init, resp);
    StartingNonces(hash, init', resp');
    EndsTell(init + resp, Ascii("Init -> Resp"), init + resp, Ascii("Resp -> Init"));
    EndsTell(init + resp, Ascii("Resp -> Init"), init' + resp', Ascii("Init -> Resp"));
    EndsTell(init + resp, Ascii("Init -> Resp"), init' + resp', Ascii("Init -> Resp"));
    EndsTell(init + resp, Ascii("Resp -> Init"), init' + resp', Ascii("Resp -> Init"));
    assert Ascii("Init -> Resp")[0] != Ascii("Resp -> Init")[0];
  }

  lemma EndsTell(a: seq<byte>, x: seq<byte>, b: seq<byte>, y: seq<byte>)
    requires |x| == |y|
    ensures a + x == b + y <==> a == b && x == y
  {
    if a + x == b + y {
      assert a == (a + x)[..|a|] && b == (b + y)[..|b|];
      assert x == (a + x)[|a|..] && y == (b + y)[|b|..];
    }
  }
}
