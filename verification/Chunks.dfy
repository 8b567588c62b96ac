/** Cutting a message into encrypted chunks and a chunk into writes (generator/src/lib.rs,
    p2p_fuzzer/src/bin/p2p_fuzzer.rs, tezos/messages/src/p2p/binary_message.rs). */
module Chunks {
  import opened Basics
  import opened Bytes
  import opened Nonces

  const CONTENT_LENGTH_MAX: nat := 65535
  const MACBYTES: nat := 16
  const MAX_PLAIN: nat := CONTENT_LENGTH_MAX - MACBYTES

  // ----- cutting -----

  function Sum(sizes: seq<nat>): nat {
    if sizes == [] then 0 else sizes[0] + Sum(sizes[1..])
  }

  function Concat(chunks: seq<seq<byte>>): seq<byte> {
    if chunks == [] then [] else chunks[0] + Concat(chunks[1..])
  }

  ghost predicate Positive(sizes: seq<nat>) {
    forall i :: 0 <= i < |sizes| ==> sizes[i] > 0
  }

  ghost predicate Within(sizes: seq<nat>, limit: nat) {
    forall i :: 0 <= i < |sizes| ==> sizes[i] <= limit
  }

  function Sizes(chunks: seq<seq<byte>>): (r: seq<nat>)
    ensures |r| == |chunks|
    ensures forall i :: 0 <= i < |chunks| ==> r[i] == |chunks[i]|
  {
    seq(|chunks|, i requires 0 <= i < |chunks| => |chunks[i]|)
  }

  lemma {:induction false} ConcatSnoc(chunks: seq<seq<byte>>, chunk: seq<byte>)
    ensures Concat(chunks + [chunk]) == Concat(chunks) + chunk
  {
    if chunks == [] {
      assert chunks + [chunk] == [chunk];
      assert Concat([chunk]) == chunk + Concat([]);
    } else {
      ConcatSnoc(chunks[1..], chunk);
      assert (chunks + [chunk])[1..] == chunks[1..] + [chunk];
    }
  }

  lemma {:induction false} SumSnoc(sizes: seq<nat>, size: nat)
    ensures Sum(sizes + [size]) == Sum(sizes) + size
  {
    if sizes == [] {
      assert sizes + [size] == [size];
      assert Sum([size]) == size + Sum([]);
    } else {
      SumSnoc(sizes[1..], size);
      assert (sizes + [size])[1..] == sizes[1..] + [size];
    }
  }

  lemma {:induction false} SumAppend(a: seq<nat>, b: seq<nat>)
    ensures Sum(a + b) == Sum(a) + Sum(b)
  {
    if a == [] {
      assert a + b == b;
    } else {
      SumAppend(a[1..], b);
      assert (a + b)[1..] == a[1..] + b;
    }
  }

  // ----- random choices -----

  /** The sizes that the loops of `gen_chunks` and `gen_byte_chunks` draw: at most one below the
      limit and below what remains, so that there is always a last chunk of one byte. */
  method DrawSizes(total: nat, limit: nat) returns (sizes: seq<nat>)
    requires limit >= 1
    ensures Sum(sizes) == total && Positive(sizes)
    ensures Within(sizes, if limit == 1 then 1 else limit - 1)
    ensures total > 0 ==> sizes != []
  {
    var remaining := total;
    sizes := [];
    while remaining > 1
      invariant Sum(sizes) + remaining == total && remaining >= 0 && (remaining == 0 ==> total == 0 || limit == 1)
      invariant Positive(sizes) && Within(sizes, if limit == 1 then 1 else limit - 1)
    {
      var size := 1;
      if limit != 1 {
        var bound := if remaining < limit then remaining else limit;
        size :| 1 <= size < bound;
      }
      SumSnoc(sizes, size);
      sizes := sizes + [size];
      remaining := remaining - size;
    }
    if remaining == 1 {
      SumSnoc(sizes, 1);
      sizes := sizes + [1];
    }
  }

  /** `shuffle`: swaps every position, from the last one down, with one at or before it. */
  method Shuffle(sizes: seq<nat>) returns (mixed: seq<nat>)
    ensures multiset(mixed) == multiset(sizes)
  {
    mixed := sizes;
    var i := |sizes|;
    while i > 1
      invariant |mixed| == |sizes| && i <= |sizes|
      invariant multiset(mixed) == multiset(sizes)
    {
      i := i - 1;
      var j :| 0 <= j <= i;
      mixed := mixed[i := mixed[j]][j := mixed[i]];
    }
  }

  lemma SumRemove(b: seq<nat>, k: nat)
    requires k < |b|
    ensures Sum(b) == b[k] + Sum(b[..k] + b[k + 1..])
  {
    hide Sum;
    var x := [b[k]];
    assert b == b[..k] + (x + b[k + 1..]);
    SumAppend(b[..k], x + b[k + 1..]);
    SumAppend(x, b[k + 1..]);
    SumAppend(b[..k], b[k + 1..]);
    assert Sum(x) == b[k] by { SumSnoc([], b[k]); SumOfNothing(); assert [] + x == x; }
  }

  lemma SumOfNothing()
    ensures Sum([]) == 0
  {
  }

  lemma RemoveFromMultiset(b: seq<nat>, k: nat)
    requires k < |b|
    ensures multiset(b[..k] + b[k + 1..]) == multiset(b) - multiset{b[k]}
  {
    assert b == b[..k] + [b[k]] + b[k + 1..];
  }

  lemma {:induction false} SumOfPermutation(a: seq<nat>, b: seq<nat>)
    requires multiset(a) == multiset(b)
    ensures Sum(a) == Sum(b)
    decreases |a|
  {
    hide Sum;
    assert |a| == |multiset(a)| == |multiset(b)| == |b|;
    if a == [] {
      assert b == [];
    } else {
      assert a[0] in multiset(b);
      var k :| 0 <= k < |b| && b[k] == a[0];
      var fewer := a[..0] + a[1..];
      RemoveFromMultiset(a, 0);
      RemoveFromMultiset(b, k);
      SumRemove(a, 0);
      SumRemove(b, k);
      SumOfPermutation(fewer, b[..k] + b[k + 1..]);
    }
  }

  /** A shuffle keeps the sum and every bound on the single sizes. */
  lemma ShuffleKeeps(a: seq<nat>, b: seq<nat>, limit: nat)
    requires multiset(a) == multiset(b) && Positive(a) && Within(a, limit)
    ensures Sum(a) == Sum(b) && Positive(b) && Within(b, limit) && |a| == |b|
  {
    SumOfPermutation(a, b);
    assert |a| == |multiset(a)| == |multiset(b)| == |b|;
    forall i | 0 <= i < |b|
      ensures 0 < b[i] <= limit
    {
      assert b[i] in multiset(a);
    }
  }

  /** Cuts bytes at the given sizes. */
  method Cut(bytes: seq<byte>, sizes: seq<nat>) returns (chunks: seq<seq<byte>>)
    requires Sum(sizes) == |bytes|
    ensures Concat(chunks) == bytes && Sizes(chunks) == sizes
  {
    var start := 0;
    chunks := [];
    for i := 0 to |sizes|
      invariant start == Sum(sizes[..i]) && start + Sum(sizes[i..]) == |bytes|
      invariant Concat(chunks) == bytes[..start] && Sizes(chunks) == sizes[..i]
    {
      assert sizes[..i + 1] == sizes[..i] + [sizes[i]] && sizes[i..][1..] == sizes[i + 1..];
      SumSnoc(sizes[..i], sizes[i]);
      var chunk := bytes[start..start + sizes[i]];
      ConcatSnoc(chunks, chunk);
      assert bytes[..start + sizes[i]] == bytes[..start] + chunk;
      chunks := chunks + [chunk];
      start := start + sizes[i];
    }
    assert sizes[..|sizes|] == sizes && bytes[..|bytes|] == bytes;
  }

  /** `gen_byte_chunks`: pieces of at least one byte that make up the bytes, whatever was drawn. */
  method GenByteChunks(bytes: seq<byte>) returns (pieces: seq<seq<byte>>)
    ensures Concat(pieces) == bytes && Positive(Sizes(pieces))
  {
    var limit := if |bytes| < 2 then 2 else |bytes|;
    var sizes := DrawSizes(|bytes|, limit);
    var mixed := Shuffle(sizes);
    ShuffleKeeps(sizes, mixed, limit);
    pieces := Cut(bytes, mixed);
  }

  // ----- encryption and framing -----

  /** Authenticated encryption with a precomputed key, for a 24-byte nonce. */
  datatype Cipher = Cipher(
    seal: (seq<byte>, seq<byte>) -> seq<byte>,
    open: (seq<byte>, seq<byte>) -> Option<seq<byte>>)

  ghost predicate Lawful(c: Cipher) {
    forall m: seq<byte>, n: seq<byte> :: |c.seal(m, n)| == |m| + MACBYTES && c.open(c.seal(m, n), n) == Some(m)
  }

  function Encrypt(c: Cipher, m: seq<byte>, nonce: nat): Result<seq<byte>> {
    match GetBytes(nonce)
    case Ok(n) => Ok(c.seal(m, n))
    case Err => Err
  }

  function Decrypt(c: Cipher, content: seq<byte>, nonce: nat): Option<seq<byte>> {
    match GetBytes(nonce)
    case Ok(n) => c.open(content, n)
    case Err => None
  }

  lemma DecryptEncrypt(c: Cipher, m: seq<byte>, nonce: nat)
    requires Lawful(c)
    ensures Encrypt(c, m, nonce).Ok? <==> nonce < Pow256(NONCE_SIZE)
    ensures Encrypt(c, m, nonce).Ok? ==>
              |Encrypt(c, m, nonce).value| == |m| + MACBYTES
              && Decrypt(c, Encrypt(c, m, nonce).value, nonce) == Some(m)
  {
    hide GetBytes, Pow256;
    GetBytesMeaning(nonce);
  }

  /** `BinaryChunk::from_content`: the content behind its length. */
  function Frame(content: seq<byte>): Result<seq<byte>> {
    if |content| <= CONTENT_LENGTH_MAX then Ok(ToBE(2, |content|) + content) else Err
  }

  function Content(raw: seq<byte>): seq<byte>
    requires |raw| >= 2
  {
    raw[2..]
  }

  /** The raw chunks of plain chunks under consecutive nonces; an error where the original panics. */
  function Sealed(c: Cipher, nonce: nat, plain: seq<seq<byte>>): (r: Result<seq<seq<byte>>>)
    ensures r.Ok? ==> |r.value| == |plain|
    decreases |plain|
  {
    if plain == [] then Ok([])
    else
      match Encrypt(c, plain[0], nonce)
      case Err => Err
      case Ok(content) =>
        (match Frame(content)
         case Err => Err
         case Ok(raw) =>
           (match Sealed(c, nonce + 1, plain[1..])
            case Ok(raws) => Ok([raw] + raws)
            case Err => Err))
  }

  ghost function Behind(done: seq<seq<byte>>, r: Result<seq<seq<byte>>>): Result<seq<seq<byte>>> {
    match r
    case Ok(more) => Ok(done + more)
    case Err => Err
  }

  method SealEach(c: Cipher, nonce: nat, plain: seq<seq<byte>>) returns (r: Result<seq<seq<byte>>>, next: nat)
    ensures r == Sealed(c, nonce, plain)
    ensures r.Ok? ==> next == nonce + |plain|
  {
    hide Encrypt, Frame;
    var raws := [];
    next := nonce;
    assert plain[0..] == plain;
    ghost var all := Sealed(c, nonce, plain);
    assert all.Ok? ==> [] + all.value == all.value;
    for i := 0 to |plain|
      invariant next == nonce + i
      invariant Sealed(c, nonce, plain) == Behind(raws, Sealed(c, next, plain[i..]))
    {
      assert plain[i..][0] == plain[i] && plain[i..][1..] == plain[i + 1..];
      var content := Encrypt(c, plain[i], next);
      if content.Err? { return Err, next; }
      var raw := Frame(content.value);
      if raw.Err? { return Err, next; }
      ghost var more := Sealed(c, next + 1, plain[i + 1..]);
      assert more.Ok? ==> raws + ([raw.value] + more.value) == (raws + [raw.value]) + more.value;
      raws := raws + [raw.value];
      next := Increment(next);
    }
    assert plain[|plain|..] == [] && raws + [] == raws;
    return Ok(raws), next;
  }

  /** Chunk `i` on the wire, byte by byte: a two-byte length and the chunk sealed under the big-endian
      bytes of the `i`-th nonce, which no other chunk has. */
  lemma {:induction false} ChunkOnWire(c: Cipher, nonce: nat, plain: seq<seq<byte>>, i: nat)
    requires Sealed(c, nonce, plain).Ok? && i < |plain|
    ensures var content := c.seal(plain[i], ToBE(NONCE_SIZE, nonce + i));
            Sealed(c, nonce, plain).value[i] == ToBE(2, |content|) + content
    ensures nonce + i < Pow256(NONCE_SIZE)
    decreases i
  {
    hide GetBytes, ToBE, Pow256;
    if i == 0 {
      GetBytesMeaning(nonce);
    } else {
      ChunkOnWire(c, nonce + 1, plain[1..], i - 1);
    }
  }

  /** Chunks within the limit are sealed unless the counter runs out. */
  lemma {:induction false} SealedIff(c: Cipher, nonce: nat, plain: seq<seq<byte>>)
    requires Lawful(c) && Within(Sizes(plain), MAX_PLAIN)
    ensures Sealed(c, nonce, plain).Ok? <==> plain == [] || nonce + |plain| <= Pow256(NONCE_SIZE)
    decreases |plain|
  {
    hide Encrypt, Pow256, ToBE;
    if plain != [] {
      DecryptEncrypt(c, plain[0], nonce);
      assert Sizes(plain)[0] == |plain[0]|;
      assert Sizes(plain[1..]) == Sizes(plain)[1..];
      SealedIff(c, nonce + 1, plain[1..]);
    }
  }

  lemma {:induction false} ConcatAppend(a: seq<seq<byte>>, b: seq<seq<byte>>)
    ensures Concat(a + b) == Concat(a) + Concat(b)
  {
    if a == [] {
      assert a + b == b;
    } else {
      ConcatAppend(a[1..], b);
      assert (a + b)[1..] == a[1..] + b && (a + b)[0] == a[0];
      AppendAssoc(a[0], Concat(a[1..]), Concat(b));
    }
  }

  /** Chunks that are not empty are at most as many as their bytes. */
  lemma {:induction false} ChunkCount(plain: seq<seq<byte>>)
    requires Positive(Sizes(plain))
    ensures |plain| <= |Concat(plain)|
    decreases |plain|
  {
    if plain != [] {
      assert Sizes(plain)[0] == |plain[0]|;
      assert Sizes(plain[1..]) == Sizes(plain)[1..];
      ChunkCount(plain[1..]);
    }
  }

  /** What `gen_chunks` promises: a partition into chunks that fit, sealed with consecutive nonces. */
  ghost predicate Partition(bytes: seq<byte>, plain: seq<seq<byte>>, limit: nat) {
    Concat(plain) == bytes && Positive(Sizes(plain)) && Within(Sizes(plain), limit)
  }

  /** `gen_chunks`. `None` stands for the panic on an empty range, which a limit of zero causes for
      more than one byte. */
  method GenChunks(bytes: seq<byte>, maxChunkSize: nat, c: Cipher, nonce: nat)
    returns (r: Option<Result<seq<seq<byte>>>>, next: nat, ghost plain: seq<seq<byte>>)
    ensures r.None? <==> maxChunkSize == 0 && |bytes| > 1
    ensures r.Some? ==> Partition(bytes, plain, if |bytes| <= 1 || maxChunkSize == 1 then 1 else MAX_PLAIN - 1)
    ensures r.Some? && |bytes| > 1 ==> Within(Sizes(plain), maxChunkSize)
    ensures r.Some? ==> r.value == Sealed(c, nonce, plain) && (r.value.Ok? ==> next == nonce + |plain|)
  {
    var maxSize := if maxChunkSize < MAX_PLAIN then maxChunkSize else MAX_PLAIN;
    if maxSize == 0 && |bytes| > 1 {
      return None, nonce, [];
    }
    var limit := if |bytes| <= 1 then 1 else maxSize;
    var sizes := DrawSizes(|bytes|, limit);
    var mixed := Shuffle(sizes);
    ShuffleKeeps(sizes, mixed, if limit == 1 then 1 else limit - 1);
    var cut := Cut(bytes, mixed);
    plain := cut;
    var sealed, after := SealEach(c, nonce, cut);
    return Some(sealed), after, plain;
  }

  /** `slice::chunks`: full chunks and what remains. */
  function Slices(bytes: seq<byte>, size: nat): (chunks: seq<seq<byte>>)
    requires size > 0
    decreases |bytes|
  {
    if |bytes| == 0 then [] else if |bytes| <= size then [bytes] else [bytes[..size]] + Slices(bytes[size..], size)
  }

  method CutSlices(bytes: seq<byte>, size: nat) returns (chunks: seq<seq<byte>>)
    requires size > 0
    ensures chunks == Slices(bytes, size)
  {
    chunks := [];
    var start := 0;
    while start < |bytes|
      invariant start <= |bytes|
      invariant chunks + Slices(bytes[start..], size) == Slices(bytes, size)
    {
      var end := if |bytes| - start <= size then |bytes| else start + size;
      var chunk := bytes[start..end];
      ghost var tail := bytes[start..];
      assert chunk == if |tail| <= size then tail else tail[..size];
      assert bytes[end..] == tail[end - start..];
      assert Slices(tail, size) == [chunk] + Slices(bytes[end..], size);
      assert chunks + ([chunk] + Slices(bytes[end..], size)) == (chunks + [chunk]) + Slices(bytes[end..], size);
      chunks := chunks + [chunk];
      start := end;
    }
    assert chunks + [] == chunks;
  }

  lemma {:induction false} SlicesPartition(bytes: seq<byte>, size: nat)
    requires size > 0
    ensures Partition(bytes, Slices(bytes, size), size)
    decreases |bytes|
  {
    var chunks := Slices(bytes, size);
    if |bytes| == 0 {
    } else if |bytes| <= size {
      assert chunks == [bytes] && Concat(chunks) == bytes + Concat([]);
    } else {
      SlicesPartition(bytes[size..], size);
      var tail := Slices(bytes[size..], size);
      assert chunks[1..] == tail;
      assert bytes == bytes[..size] + bytes[size..];
      assert forall i :: 0 < i < |chunks| ==> Sizes(chunks)[i] == Sizes(tail)[i - 1];
    }
  }
}
