/** The lazily loaded tree: nodes that remember their entry after the first visit, and lookups that
    fill them in (`TezedgeIndex`, tezos/new_context/src/tezedge_context.rs). */
module LazyTree {
  import opened Basics
  import opened ContextTree
  import opened ContextListing
  import opened ContextKeys
  import opened ContextDumps

  datatype Entry = BlobEntry(value: Blob) | TreeEntry(edges: seq<NodeEdge>) | CommitEntry(root: HashId)

  datatype NodeEdge = NodeEdge(key: string, node: Node)

  /** A node with its hash, if it has been hashed, and its entry, if it has been loaded. `full` is
      what it stands for. */
  class Node {
    const hash: Option<HashId>
    var entry: Option<Entry>
    ghost const full: Full

    constructor (hash: HashId, ghost full: Full)
      ensures this.hash == Some(hash) && this.full == full && entry == None
    {
      this.hash := Some(hash);
      this.full := full;
      entry := None;
    }
  }

  /** The edges of a loaded tree stand for the edges of a full one. */
  ghost predicate EdgesMean(edges: seq<NodeEdge>, full: seq<Edge>) {
    && |edges| == |full|
    && forall i :: 0 <= i < |edges| ==> edges[i].key == full[i].key && edges[i].node.full == full[i].full
  }

  /** `Tree::get`. */
  function ChildNode(edges: seq<NodeEdge>, key: string): Option<Node> {
    if edges == [] then None else if edges[0].key == key then Some(edges[0].node) else ChildNode(edges[1..], key)
  }

  lemma {:induction false} ChildMeans(edges: seq<NodeEdge>, full: seq<Edge>, key: string)
    requires EdgesMean(edges, full)
    ensures ChildNode(edges, key).Some? == Child(full, key).Some?
    ensures ChildNode(edges, key).Some? ==>
              && ChildNode(edges, key).value.full == Child(full, key).value
              && exists i :: 0 <= i < |edges| && edges[i].node == ChildNode(edges, key).value
  {
    if edges != [] {
      ChildMeans(edges[1..], full[1..], key);
      assert edges[1..] == [] || forall i :: 0 <= i < |edges[1..]| ==> edges[1..][i] == edges[i + 1];
    }
  }

  lemma MissingIsNotListed(path: Key, full: Full)
    requires full.Missing?
    ensures Listing(path, full) == Err
  {
  }

  class Index {
    const store: Store
    ghost const rank: HashId -> nat
    /** The nodes in use. */
    ghost var nodes: set<Node>

    constructor (store: Store, ghost rank: HashId -> nat)
      requires Acyclic(store, rank)
      ensures this.store == store && this.rank == rank && nodes == {} && Valid()
    {
      this.store := store;
      this.rank := rank;
      nodes := {};
    }

    ghost predicate Known(edges: seq<NodeEdge>)
      reads this
    {
      forall i :: 0 <= i < |edges| ==> edges[i].node in nodes
    }

    ghost predicate EntryMeans(e: Entry, full: Full)
      requires Acyclic(store, rank)
      reads this
    {
      match e
      case BlobEntry(value) => full == Full.Blob(value)
      case TreeEntry(edges) => full.Tree? && EdgesMean(edges, full.edges) && Known(edges)
      case CommitEntry(root) => full == Commit(Load(store, rank, root))
    }

    ghost predicate NodeOk(n: Node)
      requires Acyclic(store, rank)
      reads this, n
    {
      && (n.hash.Some? ==> n.full == Load(store, rank, n.hash.value))
      && (if n.entry.Some? then EntryMeans(n.entry.value, n.full) else n.hash.None? ==> n.full == Missing)
    }

    /** Every node agrees with the store, and what it remembers agrees with what it stands for. */
    ghost predicate Valid()
      reads this, nodes
    {
      Acyclic(store, rank) && forall n :: n in nodes ==> NodeOk(n)
    }

    /** Reads an entry from the store; the nodes below it are new and not loaded. */
    method GetEntry(hash: HashId) returns (r: Result<Entry>)
      requires Valid()
      modifies this`nodes
      ensures Valid() && old(nodes) <= nodes && fresh(nodes - old(nodes))
      ensures r.Ok? <==> !Load(store, rank, hash).Missing?
      ensures r.Ok? ==> EntryMeans(r.value, Load(store, rank, hash))
    {
      if hash !in store {
        return Err;
      }
      match store[hash] {
        case StoredBlob(value) => return Ok(BlobEntry(value));
        case StoredCommit(root) => return Ok(CommitEntry(root));
        case StoredTree(stored) =>
          var edges := NewNodes(stored);
          assert EdgesMean(edges, Load(store, rank, hash).edges);
          return Ok(TreeEntry(edges));
      }
    }

    method NewNodes(stored: seq<StoredEdge>) returns (edges: seq<NodeEdge>)
      requires Valid()
      modifies this`nodes
      ensures Valid() && old(nodes) <= nodes && fresh(nodes - old(nodes))
      ensures |edges| == |stored| && Known(edges)
      ensures forall i :: 0 <= i < |stored| ==>
                edges[i].key == stored[i].key && edges[i].node.full == Load(store, rank, stored[i].hash)
    {
      hide Load;
      edges := [];
      for i := 0 to |stored|
        invariant Valid() && old(nodes) <= nodes && fresh(nodes - old(nodes))
        invariant |edges| == i && Known(edges)
        invariant forall j :: 0 <= j < i ==>
                    edges[j].key == stored[j].key && edges[j].node.full == Load(store, rank, stored[j].hash)
      {
        var n := new Node(stored[i].hash, Load(store, rank, stored[i].hash));
        nodes := nodes + {n};
        edges := edges + [NodeEdge(stored[i].key, n)];
      }
    }

    /** The entry of a node, remembered or loaded and then remembered. */
    method NodeEntry(n: Node) returns (r: Result<Entry>)
      requires Valid() && n in nodes
      modifies this`nodes, n`entry
      ensures Valid() && old(nodes) <= nodes && fresh(nodes - old(nodes))
      ensures r.Ok? <==> !n.full.Missing?
      ensures r.Ok? ==> EntryMeans(r.value, n.full) && n.entry == Some(r.value)
    {
      hide Load;
      if n.entry.Some? {
        return Ok(n.entry.value);
      }
      if n.hash.None? {
        return Err;
      }
      r := GetEntry(n.hash.value);
      if r.Ok? {
        n.entry := Some(r.value);
      }
    }

    /** `find_raw_tree`: the answer is that of the full tree, however much of it was loaded. */
    method FindRawTree(edges: seq<NodeEdge>, ghost full: seq<Edge>, key: Key) returns (r: Result<seq<NodeEdge>>)
      requires Valid() && Known(edges) && EdgesMean(edges, full)
      modifies this`nodes, nodes
      ensures Valid() && old(nodes) <= nodes && fresh(nodes - old(nodes))
      ensures r.Ok? == RawTree(full, key).Ok?
      ensures r.Ok? ==> Known(r.value) && EdgesMean(r.value, RawTree(full, key).value)
      decreases |key|
    {
      hide Load;
      if key == [] {
        return Ok(edges);
      }
      ChildMeans(edges, full, key[0]);
      var child := ChildNode(edges, key[0]);
      if child.None? {
        return Ok([]);
      }
      var entry := NodeEntry(child.value);
      if entry.Err? {
        return Err;
      }
      match entry.value {
        case TreeEntry(es) => r := FindRawTree(es, child.value.full.edges, key[1..]);
        case BlobEntry(_) => r := Ok([]);
        case CommitEntry(_) => r := Err;
      }
    }

    /** `get_from_tree`. */
    method GetFromTree(edges: seq<NodeEdge>, ghost full: seq<Edge>, key: Key) returns (r: Result<Blob>)
      requires Valid() && Known(edges) && EdgesMean(edges, full)
      modifies this`nodes, nodes
      ensures Valid() && old(nodes) <= nodes && fresh(nodes - old(nodes))
      ensures r == Lookup(full, key)
    {
      hide Load;
      if key == [] {
        return Err;
      }
      var k := |key| - 1;
      var tree := FindRawTree(edges, full, key[..k]);
      if tree.Err? {
        return Err;
      }
      ghost var es := RawTree(full, key[..k]).value;
      ChildMeans(tree.value, es, key[k]);
      var child := ChildNode(tree.value, key[k]);
      if child.None? {
        return Err;
      }
      var entry := NodeEntry(child.value);
      if entry.Ok? && entry.value.BlobEntry? {
        return Ok(entry.value.value);
      }
      return Err;
    }

    /** `get_key_values_from_tree_recursively`: pushes the pairs below an entry; `key` is the path
        that `path` is the text of. */
    method KeyValuesBelow(path: string, ghost key: Key, entry: Entry, ghost full: Full, pairs: seq<Pair>)
      returns (r: Result<seq<Pair>>)
      requires Valid() && EntryMeans(entry, full) && key != [] && path == KeyText(key)
      modifies this`nodes, nodes
      ensures Valid() && old(nodes) <= nodes && fresh(nodes - old(nodes))
      ensures r == Extend(pairs, Listing(key, full))
      decreases full, 1
    {
      hide Load, KeyText, SplitText;
      match entry {
        case BlobEntry(value) =>
          assert Respelled([(key, value)]) == [(SplitText(KeyText(key)), value)];
          return Ok(pairs + [(SplitText(path), value)]);
        case CommitEntry(root) =>
          var next := GetEntry(root);
          if next.Err? {
            return Err;
          }
          r := KeyValuesBelow(path, key, next.value, full.root, pairs);
        case TreeEntry(edges) => r := KeyValuesOfEdges(path, key, edges, full.edges, pairs);
      }
    }

    method KeyValuesOfEdges(path: string, ghost key: Key, edges: seq<NodeEdge>, ghost es: seq<Edge>, pairs: seq<Pair>)
      returns (r: Result<seq<Pair>>)
      requires Valid() && Known(edges) && EdgesMean(edges, es) && key != [] && path == KeyText(key)
      modifies this`nodes, nodes
      ensures Valid() && old(nodes) <= nodes && fresh(nodes - old(nodes))
      ensures r == Extend(pairs, ListEdges(key, es))
      decreases es, 0
    {
      hide Load, KeyText, SplitText, Listing, Extend, EntryMeans;
      var acc := pairs;
      assert es[0..] == es;
      for i := 0 to |edges|
        invariant Valid() && old(nodes) <= nodes && fresh(nodes - old(nodes))
        invariant Known(edges)
        invariant Extend(pairs, ListEdges(key, es)) == Extend(acc, ListEdges(key, es[i..]))
      {
        ghost var edge := es[i];
        assert es[i..][0] == edge && es[i..][1..] == es[i + 1..];
        var child := NodeEntry(edges[i].node);
        if child.Ok? {
          ExtendText(key, edge.key);
          ExtendBoth(acc, Listing(key + [edge.key], edge.full), ListEdges(key, es[i + 1..]));
          var more := KeyValuesBelow(path + "/" + edges[i].key, key + [edge.key], child.value, edge.full, acc);
          ExtendErr(acc, Listing(key + [edge.key], edge.full));
          if more.Err? {
            return Err;
          }
          acc := more.value;
        }
      }
      assert es[|edges|..] == [];
      ExtendNothing(acc, Ok([]));
      r := Ok(acc);
    }

    /** `_get_context_key_values_by_prefix`. */
    method KeyValuesByPrefix(edges: seq<NodeEdge>, ghost full: seq<Edge>, prefix: Key)
      returns (r: Result<Option<seq<Pair>>>)
      requires Valid() && Known(edges) && EdgesMean(edges, full)
      modifies this`nodes, nodes
      ensures Valid() && old(nodes) <= nodes && fresh(nodes - old(nodes))
      ensures r == PushedKeyValues(full, prefix)
    {
      hide Load, KeyText, SplitText, Listing, RawTree, Extend, EntryMeans;
      var tree := FindRawTree(edges, full, prefix);
      if tree.Err? {
        return Err;
      }
      ghost var es := RawTree(full, prefix).value;
      var pairs: seq<Pair> := [];
      var delimiter := if prefix == [] then "" else "/";
      ExtendErr([], ListTop(prefix, es));
      assert es[0..] == es;
      for i := 0 to |tree.value|
        invariant Valid() && old(nodes) <= nodes && fresh(nodes - old(nodes))
        invariant Known(tree.value)
        invariant Extend([], ListTop(prefix, es)) == Extend(pairs, ListTop(prefix, es[i..]))
      {
        ghost var edge := es[i];
        assert es[i..][0] == edge && es[i..][1..] == es[i + 1..];
        ExtendText(prefix, edge.key);
        ExtendBoth(pairs, Listing(prefix + [edge.key], edge.full), ListTop(prefix, es[i + 1..]));
        var child := NodeEntry(tree.value[i].node);
        if child.Err? {
          MissingIsNotListed(prefix + [edge.key], edge.full);
          return Err;
        }
        var more := KeyValuesBelow(KeyText(prefix) + delimiter + tree.value[i].key, prefix + [edge.key], child.value,
                                   edge.full, pairs);
        ExtendErr(pairs, Listing(prefix + [edge.key], edge.full));
        if more.Err? {
          return Err;
        }
        pairs := more.value;
      }
      assert es[|tree.value|..] == [];
      ExtendNothing(pairs, ListTop(prefix, es));
      r := Ok(if pairs == [] then None else Some(pairs));
    }

    /** `get_context_recursive`, without the path that it builds and does not use. */
    method DumpEntry(entry: Entry, ghost full: Full, depth: Option<nat>) returns (r: Result<Json>)
      requires Valid() && EntryMeans(entry, full)
      modifies this`nodes, nodes
      ensures Valid() && old(nodes) <= nodes && fresh(nodes - old(nodes))
      ensures r == Dump(full, depth)
      decreases full, 1
    {
      hide Load, HexEncode;
      if depth == Some(0) {
        return Ok(Null);
      }
      match entry {
        case BlobEntry(value) => r := Ok(Leaf(HexEncode(value)));
        case TreeEntry(edges) => r := DumpChildren(edges, full.edges, Below(depth));
        case CommitEntry(_) => r := Err;
      }
    }

    method DumpChildren(edges: seq<NodeEdge>, ghost es: seq<Edge>, depth: Option<nat>) returns (r: Result<Json>)
      requires Valid() && Known(edges) && EdgesMean(edges, es)
      modifies this`nodes, nodes
      ensures Valid() && old(nodes) <= nodes && fresh(nodes - old(nodes))
      ensures r == DumpEdges(es, depth)
      decreases es, 0
    {
      hide Load, Dump, ExtendMembers, EntryMeans;
      var members: seq<Member> := [];
      ExtendMembersNothing([], DumpMembers(es, depth));
      assert es[0..] == es;
      for i := 0 to |edges|
        invariant Valid() && old(nodes) <= nodes && fresh(nodes - old(nodes))
        invariant Known(edges)
        invariant ExtendMembers([], DumpMembers(es, depth)) == ExtendMembers(members, DumpMembers(es[i..], depth))
      {
        assert es[i..][0] == es[i] && es[i..][1..] == es[i + 1..];
        ExtendMembersStep(members, es[i..], depth);
        var child := NodeEntry(edges[i].node);
        if child.Err? {
          return Err;
        }
        var value := DumpEntry(child.value, es[i].full, depth);
        if value.Err? {
          return Err;
        }
        members := members + [Member(edges[i].key, value.value)];
      }
      assert es[|edges|..] == [];
      ExtendMembersNothing(members, DumpMembers(es, depth));
      r := Ok(Object(members));
    }

    /** `_get_context_tree_by_prefix` below the root tree. */
    method DumpByPrefix(edges: seq<NodeEdge>, ghost full: seq<Edge>, prefix: Key, depth: Option<nat>)
      returns (r: Result<Json>)
      requires Valid() && Known(edges) && EdgesMean(edges, full)
      modifies this`nodes, nodes
      ensures Valid() && old(nodes) <= nodes && fresh(nodes - old(nodes))
      ensures r == DumpPrefix(full, prefix, depth)
    {
      hide Load;
      if depth == Some(0) {
        return Ok(Null);
      }
      var tree := FindRawTree(edges, full, prefix);
      if tree.Err? {
        return Err;
      }
      r := DumpChildren(tree.value, RawTree(full, prefix).value, Below(depth));
    }

    /** `get_history`: a commit, its root tree, and the value at the key. */
    method GetHistory(commit: HashId, key: Key) returns (r: Result<Blob>)
      requires Valid()
      modifies this`nodes, nodes
      ensures Valid() && old(nodes) <= nodes && fresh(nodes - old(nodes))
      ensures r == HistoryValue(Load(store, rank, commit), key)
    {
      hide Load;
      var entry := GetEntry(commit);
      if entry.Err? || !entry.value.CommitEntry? {
        return Err;
      }
      ghost var root := Load(store, rank, entry.value.root);
      var tree := GetEntry(entry.value.root);
      if tree.Err? || !tree.value.TreeEntry? {
        return Err;
      }
      r := GetFromTree(tree.value.edges, root.edges, key);
    }
  }

  /** The value that a commit has for a key when everything is loaded. */
  function HistoryValue(commit: Full, key: Key): Result<Blob> {
    if commit.Commit? && commit.root.Tree? then Lookup(commit.root.edges, key) else Err
  }

  /** A commit has a value for a key exactly when its root is a tree and the blob is found there. */
  lemma HistoryFinds(commit: Full, key: Key, value: Blob)
    ensures HistoryValue(commit, key) == Ok(value)
       <==> commit.Commit? && commit.root.Tree? && Find(commit.root, key) == Some(value)
  {
    hide Lookup, Find;
    if commit.Commit? && commit.root.Tree? { LookupFinds(commit.root.edges, key, value); }
  }
}
