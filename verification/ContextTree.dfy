/** The context tree as a value: what a store of hashed entries stands for when everything is
    loaded, and what is found along a path in it (tezos/new_context/src/tezedge_context.rs). */
module ContextTree {
  import opened Basics

  type HashId = nat
  type Key = seq<string>
  type Blob = seq<byte>

  // ----- the store -----

  /** An entry as it is stored; the edges of a tree in the order of its map. */
  datatype Stored =
    | StoredBlob(value: Blob)
    | StoredTree(edges: seq<StoredEdge>)
    | StoredCommit(root: HashId)

  datatype StoredEdge = StoredEdge(key: string, hash: HashId)

  type Store = map<HashId, Stored>

  /** Entries refer only to entries of smaller rank. */
  ghost predicate Acyclic(store: Store, rank: HashId -> nat) {
    forall h :: h in store ==>
      match store[h]
      case StoredBlob(_) => true
      case StoredTree(edges) => forall i :: 0 <= i < |edges| ==> rank(edges[i].hash) < rank(h)
      case StoredCommit(root) => rank(root) < rank(h)
  }

  // ----- fully loaded -----

  datatype Full = Blob(value: Blob) | Tree(edges: seq<Edge>) | Commit(root: Full) | Missing

  datatype Edge = Edge(key: string, full: Full)

  ghost function Load(store: Store, rank: HashId -> nat, hash: HashId): Full
    requires Acyclic(store, rank)
    decreases rank(hash)
  {
    if hash !in store then Missing
    else
      match store[hash]
      case StoredBlob(value) => Blob(value)
      case StoredTree(edges) =>
        Tree(seq(|edges|, i requires 0 <= i < |edges| => Edge(edges[i].key, Load(store, rank, edges[i].hash))))
      case StoredCommit(root) => Commit(Load(store, rank, root))
  }

  // ----- lookups -----

  function Child(edges: seq<Edge>, key: string): (r: Option<Full>)
    ensures r.Some? <==> exists i :: 0 <= i < |edges| && edges[i].key == key
  {
    if edges == [] then None
    else if edges[0].key == key then Some(edges[0].full)
    else
      assert forall i :: 1 <= i < |edges| ==> edges[i] == edges[1..][i - 1];
      Child(edges[1..], key)
  }

  /** `find_raw_tree`: the empty tree where the path leads nowhere or meets a blob. */
  function RawTree(edges: seq<Edge>, key: Key): Result<seq<Edge>>
    decreases |key|
  {
    if key == [] then Ok(edges)
    else
      match Child(edges, key[0])
      case None => Ok([])
      case Some(Tree(es)) => RawTree(es, key[1..])
      case Some(Blob(_)) => Ok([])
      case Some(Commit(_)) => Err
      case Some(Missing) => Err
  }

  /** `get_from_tree`. */
  function Lookup(edges: seq<Edge>, key: Key): Result<Blob> {
    if key == [] then Err
    else
      var k := |key| - 1;
      match RawTree(edges, key[..k])
      case Err => Err
      case Ok(es) =>
        match Child(es, key[k])
        case Some(Blob(value)) => Ok(value)
        case _ => Err
  }

  /** The blob at a path, whatever is on the other paths. */
  ghost function Find(full: Full, key: Key): Option<Blob>
    decreases |key|
  {
    match full
    case Blob(value) => if key == [] then Some(value) else None
    case Tree(edges) =>
      if key == [] then None
      else
        (match Child(edges, key[0])
         case Some(child) => Find(child, key[1..])
         case None => None)
    case _ => None
  }

  lemma {:induction false} LookupFinds(edges: seq<Edge>, key: Key, value: Blob)
    ensures Lookup(edges, key) == Ok(value) <==> Find(Tree(edges), key) == Some(value)
    decreases |key|
  {
    if |key| == 1 {
      assert key[..0] == [] && key[1..] == [];
    } else if |key| > 1 {
      var k := |key| - 1;
      assert key[..k][0] == key[0] && key[..k][1..] == key[1..][..k - 1] && key[1..][k - 1] == key[k];
      match Child(edges, key[0])
      case Some(Tree(es)) => LookupFinds(es, key[1..], value);
      case _ =>
    }
  }

  lemma {:induction false} RawTreeFinds(edges: seq<Edge>, prefix: Key, rest: Key)
    requires RawTree(edges, prefix).Ok? && rest != []
    ensures Find(Tree(edges), prefix + rest) == Find(Tree(RawTree(edges, prefix).value), rest)
    decreases |prefix|
  {
    if prefix == [] {
      assert prefix + rest == rest;
    } else {
      assert (prefix + rest)[1..] == prefix[1..] + rest;
      match Child(edges, prefix[0])
      case Some(Tree(es)) => RawTreeFinds(es, prefix[1..], rest);
      case _ =>
    }
  }

  // ----- distinct keys -----

  ghost predicate DistinctKeys(edges: seq<Edge>) {
    forall i, j :: 0 <= i < j < |edges| ==> edges[i].key != edges[j].key
  }

  /** Keys are distinct in every tree, as the keys of a map are, also below commits. */
  ghost predicate Keyed(full: Full)
    decreases full, 0
  {
    match full
    case Tree(edges) => KeyedEdges(edges)
    case Commit(root) => Keyed(root)
    case _ => true
  }

  ghost predicate KeyedEdges(edges: seq<Edge>)
    decreases edges, 0
  {
    DistinctKeys(edges) && forall i :: 0 <= i < |edges| ==> Keyed(edges[i].full)
  }

  lemma KeyedTail(edges: seq<Edge>)
    requires KeyedEdges(edges) && edges != []
    ensures Keyed(edges[0].full) && KeyedEdges(edges[1..])
    ensures Child(edges[1..], edges[0].key).None?
  {
    hide Keyed;
    var tail := edges[1..];
    assert forall i :: 0 <= i < |tail| ==> tail[i] == edges[i + 1];
  }

  lemma KeyedTree(edges: seq<Edge>)
    requires KeyedEdges(edges)
    ensures Keyed(Tree(edges))
  {
  }

  lemma KeyedInside(edges: seq<Edge>)
    requires Keyed(Tree(edges))
    ensures KeyedEdges(edges)
  {
  }

  lemma KeyedIsDistinct(edges: seq<Edge>)
    requires KeyedEdges(edges)
    ensures DistinctKeys(edges)
  {
  }

  lemma KeyedRoot(root: Full)
    requires Keyed(Commit(root))
    ensures Keyed(root)
  {
  }

  lemma {:induction false} ChildKeyed(edges: seq<Edge>, key: string)
    requires KeyedEdges(edges) && Child(edges, key).Some?
    ensures Keyed(Child(edges, key).value)
  {
    hide Keyed;
    KeyedTail(edges);
    if edges[0].key != key { ChildKeyed(edges[1..], key); }
  }

  lemma {:induction false} RawTreeKeyed(edges: seq<Edge>, prefix: Key)
    requires KeyedEdges(edges) && RawTree(edges, prefix).Ok?
    ensures KeyedEdges(RawTree(edges, prefix).value)
    decreases |prefix|
  {
    if prefix != [] {
      match Child(edges, prefix[0])
      case Some(Tree(es)) =>
        ChildKeyed(edges, prefix[0]);
        RawTreeKeyed(es, prefix[1..]);
      case _ =>
    }
  }

  lemma {:induction false} ChildIsEdge(edges: seq<Edge>, key: string) returns (i: nat)
    requires Child(edges, key).Some?
    ensures i < |edges| && edges[i] == Edge(key, Child(edges, key).value)
  {
    if edges[0].key == key {
      i := 0;
    } else {
      var k := ChildIsEdge(edges[1..], key);
      i := k + 1;
    }
  }

  lemma {:induction false} EdgeIsChild(edges: seq<Edge>, i: nat)
    requires DistinctKeys(edges) && i < |edges|
    ensures Child(edges, edges[i].key) == Some(edges[i].full)
  {
    if i > 0 {
      assert edges[1..][i - 1] == edges[i];
      EdgeIsChild(edges[1..], i - 1);
    }
  }

  // ----- entries at paths -----

  /** The entry at a path through trees. */
  ghost function At(full: Full, key: Key): Option<Full>
    decreases |key|
  {
    if key == [] then Some(full)
    else if !full.Tree? then None
    else
      match Child(full.edges, key[0])
      case Some(child) => At(child, key[1..])
      case None => None
  }

  lemma AtNothing(full: Full)
    ensures At(full, []) == Some(full)
  {
  }

  lemma AtStep(edges: seq<Edge>, key: Key) returns (i: nat)
    requires key != [] && At(Tree(edges), key).Some?
    ensures i < |edges| && edges[i].key == key[0] && At(edges[i].full, key[1..]) == At(Tree(edges), key)
  {
    i := ChildIsEdge(edges, key[0]);
  }

  lemma AtChild(edges: seq<Edge>, i: nat, key: Key)
    requires DistinctKeys(edges) && i < |edges|
    ensures At(Tree(edges), [edges[i].key] + key) == At(edges[i].full, key)
  {
    EdgeIsChild(edges, i);
    assert ([edges[i].key] + key)[1..] == key;
  }

  lemma {:induction false} FindIsAt(full: Full, key: Key)
    ensures forall value: Blob :: Find(full, key) == Some(value) <==> At(full, key) == Some(Full.Blob(value))
    decreases |key|
  {
    if full.Tree? && key != [] {
      match Child(full.edges, key[0])
      case Some(child) => FindIsAt(child, key[1..]);
      case None =>
    }
  }

  /** The way along a path is blocked by a commit or by an entry that is missing. */
  ghost predicate Blocked(edges: seq<Edge>, key: Key) {
    exists j :: 0 < j <= |key| && BlockedAt(edges, key[..j])
  }

  ghost predicate BlockedAt(edges: seq<Edge>, key: Key) {
    At(Tree(edges), key).Some? && (At(Tree(edges), key).value.Commit? || At(Tree(edges), key).value.Missing?)
  }

  /** The edges of the tree at a path; none where the path ends at something else or leads nowhere. */
  ghost function EdgesAt(edges: seq<Edge>, key: Key): seq<Edge> {
    match At(Tree(edges), key)
    case Some(Tree(es)) => es
    case _ => []
  }

  /** `find_raw_tree` is an error exactly when the way is blocked, and otherwise gives the edges of the
      tree at the path. */
  lemma {:induction false} RawTreeIs(edges: seq<Edge>, key: Key)
    ensures RawTree(edges, key) == if Blocked(edges, key) then Err else Ok(EdgesAt(edges, key))
    decreases |key|
  {
    if key != [] {
      match Child(edges, key[0])
      case Some(Tree(es)) =>
        RawTreeIs(es, key[1..]);
        BlockedBelow(edges, es, key);
      case Some(child) =>
        BlockedFirst(edges, child, key);
        assert At(Tree(edges), key) == At(child, key[1..]);
      case None => NotBlocked(edges, key);
    }
  }

  lemma BlockedBelow(edges: seq<Edge>, es: seq<Edge>, key: Key)
    requires key != [] && Child(edges, key[0]) == Some(Tree(es))
    ensures Blocked(edges, key) <==> Blocked(es, key[1..])
  {
    forall j | 0 < j <= |key|
      ensures BlockedAt(edges, key[..j]) <==> j > 1 && BlockedAt(es, key[1..][..j - 1])
    {
      assert key[..j][1..] == key[1..][..j - 1] && key[..j][0] == key[0];
      assert At(Tree(edges), key[..j]) == At(Tree(es), key[1..][..j - 1]);
    }
    if Blocked(es, key[1..]) {
      var j :| 0 < j <= |key[1..]| && BlockedAt(es, key[1..][..j]);
      assert BlockedAt(edges, key[..j + 1]);
    }
  }

  lemma BlockedFirst(edges: seq<Edge>, child: Full, key: Key)
    requires key != [] && Child(edges, key[0]) == Some(child) && !child.Tree?
    ensures Blocked(edges, key) <==> child.Commit? || child.Missing?
  {
    forall j | 0 < j <= |key|
      ensures At(Tree(edges), key[..j]) == if j == 1 then Some(child) else None
    {
      assert key[..j][1..] == key[1..j] && key[..j][0] == key[0];
    }
    if child.Commit? || child.Missing? { assert BlockedAt(edges, key[..1]); }
  }

  lemma NotBlocked(edges: seq<Edge>, key: Key)
    requires key != [] && Child(edges, key[0]) == None
    ensures !Blocked(edges, key)
  {
    forall j | 0 < j <= |key|
      ensures At(Tree(edges), key[..j]) == None
    {
      assert key[..j][0] == key[0];
    }
  }
}
