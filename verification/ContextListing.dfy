/** The enumeration of the pairs below a prefix (`_get_context_key_values_by_prefix`,
    tezos/new_context/src/tezedge_context.rs), on the fully loaded tree. */
module ContextListing {
  import opened Basics
  import opened ContextTree

  type Pair = (Key, Blob)

  function Both(a: Result<seq<Pair>>, b: Result<seq<Pair>>): Result<seq<Pair>> {
    if a.Ok? && b.Ok? then Ok(a.value + b.value) else Err
  }

  /** `get_key_values_from_tree_recursively`: entries that cannot be loaded are passed over, and a
      commit stands for its root. */
  function Listing(path: Key, full: Full): Result<seq<Pair>>
    decreases full, 0
  {
    match full
    case Blob(value) => Ok([(path, value)])
    case Tree(edges) => ListEdges(path, edges)
    case Commit(root) => Listing(path, root)
    case Missing => Err
  }

  function ListEdges(path: Key, edges: seq<Edge>): Result<seq<Pair>>
    decreases edges, 0
  {
    if edges == [] then Ok([])
    else if edges[0].full.Missing? then ListEdges(path, edges[1..])
    else Both(Listing(path + [edges[0].key], edges[0].full), ListEdges(path, edges[1..]))
  }

  /** The top level of the enumeration, where a missing entry is an error. */
  function ListTop(path: Key, edges: seq<Edge>): Result<seq<Pair>> {
    if edges == [] then Ok([])
    else Both(Listing(path + [edges[0].key], edges[0].full), ListTop(path, edges[1..]))
  }

  /** `_get_context_key_values_by_prefix`. */
  function KeyValues(edges: seq<Edge>, prefix: Key): Result<Option<seq<Pair>>> {
    match RawTree(edges, prefix)
    case Err => Err
    case Ok(es) =>
      match ListTop(prefix, es)
      case Err => Err
      case Ok(pairs) => if pairs == [] then Ok(None) else Ok(Some(pairs))
  }

  predicate StartsWith(key: Key, path: Key) {
    |path| <= |key| && key[..|path|] == path
  }

  /** The blob at a path that may lead through commits. */
  ghost function Reach(full: Full, key: Key): Option<Blob>
    decreases |key|, full
  {
    match full
    case Blob(value) => if key == [] then Some(value) else None
    case Tree(edges) =>
      if key == [] then None
      else
        (match Child(edges, key[0])
         case Some(child) => Reach(child, key[1..])
         case None => None)
    case Commit(root) => Reach(root, key)
    case Missing => None
  }

  /** The enumeration lists exactly the blobs that can be reached, through commits or not. */
  lemma {:induction false} ListingFinds(path: Key, full: Full, key: Key, value: Blob)
    requires Keyed(full) && Listing(path, full).Ok?
    ensures (key, value) in Listing(path, full).value
       <==> StartsWith(key, path) && Reach(full, key[|path|..]) == Some(value)
    decreases full, 1
  {
    match full
    case Blob(_) =>
      assert StartsWith(key, path) && key[|path|..] == [] ==> key == path;
      assert key == path ==> key[|path|..] == [];
    case Tree(edges) => ListEdgesFinds(path, edges, key, value);
    case Commit(root) => ListingFinds(path, root, key, value);
  }

  lemma {:induction false} ListEdgesFinds(path: Key, edges: seq<Edge>, key: Key, value: Blob)
    requires KeyedEdges(edges) && ListEdges(path, edges).Ok?
    ensures (key, value) in ListEdges(path, edges).value
       <==> StartsWith(key, path) && Reach(Tree(edges), key[|path|..]) == Some(value)
    decreases edges, 1
  {
    hide Keyed, Listing;
    if edges != [] {
      var first := edges[0];
      KeyedTail(edges);
      ListEdgesFinds(path, edges[1..], key, value);
      ReachStep(edges, path, key);
      if !first.full.Missing? {
        ListingFinds(path + [first.key], first.full, key, value);
      } else {
        MissingReachesNothing(first.full);
      }
    }
  }

  lemma {:induction false} ListTopFinds(path: Key, edges: seq<Edge>, key: Key, value: Blob)
    requires KeyedEdges(edges) && ListTop(path, edges).Ok?
    ensures (key, value) in ListTop(path, edges).value
       <==> StartsWith(key, path) && Reach(Tree(edges), key[|path|..]) == Some(value)
    decreases |edges|
  {
    hide Keyed, Listing;
    if edges != [] {
      KeyedTail(edges);
      ListTopFinds(path, edges[1..], key, value);
      ReachStep(edges, path, key);
      ListingFinds(path + [edges[0].key], edges[0].full, key, value);
    }
  }

  lemma MissingReachesNothing(full: Full)
    requires full.Missing?
    ensures forall key: Key :: Reach(full, key) == None
  {
  }

  /** A path below `path` goes through the first edge or through the others, not both. */
  lemma ReachStep(edges: seq<Edge>, path: Key, key: Key)
    requires edges != [] && Child(edges[1..], edges[0].key).None?
    ensures var below := path + [edges[0].key];
            StartsWith(key, path) ==>
              && Reach(Tree(edges), key[|path|..]) ==
                 (if StartsWith(key, below) then Reach(edges[0].full, key[|below|..])
                  else Reach(Tree(edges[1..]), key[|path|..]))
              && (StartsWith(key, below) ==> Reach(Tree(edges[1..]), key[|path|..]) == None)
    ensures StartsWith(key, path + [edges[0].key]) ==> StartsWith(key, path)
  {
    var below := path + [edges[0].key];
    if StartsWith(key, below) {
      assert key[..|path|] == key[..|below|][..|path|];
      assert key[|path|] == key[..|below|][|path|] == edges[0].key;
    }
    if StartsWith(key, path) {
      var rest := key[|path|..];
      if rest != [] {
        assert rest[0] == key[|path|] && rest[1..] == key[|below|..];
        assert rest[0] == edges[0].key ==> key[..|below|] == below;
      }
    }
  }

  /** No blob anywhere inside. */
  ghost predicate Blobless(full: Full)
    decreases full
  {
    match full
    case Blob(_) => false
    case Tree(edges) => forall i :: 0 <= i < |edges| ==> Blobless(edges[i].full)
    case Commit(root) => Blobless(root)
    case Missing => true
  }

  /** No blob lies under a commit. */
  ghost predicate CommitsHideNothing(full: Full)
    decreases full
  {
    match full
    case Tree(edges) => forall i :: 0 <= i < |edges| ==> CommitsHideNothing(edges[i].full)
    case Commit(root) => Blobless(root)
    case _ => true
  }

  lemma {:induction false} BloblessReachesNothing(full: Full, key: Key)
    requires Blobless(full)
    ensures Reach(full, key) == None
    decreases |key|, full
  {
    match full
    case Tree(edges) =>
      if key != [] && Child(edges, key[0]).Some? {
        var i := ChildIsEdge(edges, key[0]);
        BloblessReachesNothing(edges[i].full, key[1..]);
      }
    case Commit(root) => BloblessReachesNothing(root, key);
    case Missing =>
  }

  lemma {:induction false} BlobIsReached(full: Full) returns (key: Key)
    requires Keyed(full) && !Blobless(full)
    ensures Reach(full, key).Some?
    decreases full
  {
    match full
    case Blob(_) => key := [];
    case Tree(edges) =>
      var i :| 0 <= i < |edges| && !Blobless(edges[i].full);
      var below := BlobIsReached(edges[i].full);
      EdgeIsChild(edges, i);
      key := [edges[i].key] + below;
      assert key[1..] == below;
    case Commit(root) => key := BlobIsReached(root);
  }

  lemma {:induction false} NothingHidden(full: Full, key: Key)
    requires CommitsHideNothing(full)
    ensures Reach(full, key) == Find(full, key)
    decreases |key|
  {
    match full
    case Tree(edges) =>
      if key != [] && Child(edges, key[0]).Some? {
        var i := ChildIsEdge(edges, key[0]);
        NothingHidden(edges[i].full, key[1..]);
      }
    case Commit(root) => BloblessReachesNothing(root, key);
    case _ =>
  }

  lemma {:induction false} HiddenBlob(full: Full) returns (key: Key)
    requires Keyed(full) && !CommitsHideNothing(full)
    ensures Reach(full, key).Some? && Find(full, key) == None
    ensures full.Tree? ==> key != []
    decreases full
  {
    match full
    case Tree(edges) =>
      var i :| 0 <= i < |edges| && !CommitsHideNothing(edges[i].full);
      var below := HiddenBlob(edges[i].full);
      EdgeIsChild(edges, i);
      key := [edges[i].key] + below;
      assert key[1..] == below;
    case Commit(root) => key := BlobIsReached(root);
  }

  /** Enumeration and lookup agree on a pair. */
  ghost predicate Agree(edges: seq<Edge>, prefix: Key, key: Key, value: Blob)
    requires KeyValues(edges, prefix).Ok?
  {
    var listed := KeyValues(edges, prefix).value;
    (listed.Some? && (key, value) in listed.value)
    <==> |prefix| < |key| && StartsWith(key, prefix) && Lookup(edges, key) == Ok(value)
  }

  /** Whether a pair is listed and whether a lookup finds it, on the tree under the prefix. */
  lemma ListedAndFound(edges: seq<Edge>, prefix: Key, key: Key, value: Blob)
    requires KeyedEdges(edges) && KeyValues(edges, prefix).Ok?
    ensures var listed := KeyValues(edges, prefix).value;
            var es := RawTree(edges, prefix).value;
            && ((listed.Some? && (key, value) in listed.value)
                <==> StartsWith(key, prefix) && Reach(Tree(es), key[|prefix|..]) == Some(value))
            && (|prefix| < |key| && StartsWith(key, prefix) && Lookup(edges, key) == Ok(value)
                <==> StartsWith(key, prefix) && Find(Tree(es), key[|prefix|..]) == Some(value))
  {
    hide Lookup, Find, Reach, ListTop, RawTree;
    var es := RawTree(edges, prefix).value;
    RawTreeKeyed(edges, prefix);
    ListTopFinds(prefix, es, key, value);
    LookupFinds(edges, key, value);
    if StartsWith(key, prefix) {
      var rest := key[|prefix|..];
      assert key == prefix + rest;
      if rest == [] {
        NothingAtTheTree(es);
      } else {
        RawTreeFinds(edges, prefix, rest);
      }
    }
  }

  /** While no blob below the prefix lies under a commit, the enumeration lists exactly the keys that
      extend the prefix and that a lookup finds, each with its blob. */
  lemma EnumerationIsLookup(edges: seq<Edge>, prefix: Key, key: Key, value: Blob)
    requires KeyedEdges(edges) && KeyValues(edges, prefix).Ok?
    requires CommitsHideNothing(Tree(RawTree(edges, prefix).value))
    ensures Agree(edges, prefix, key, value)
  {
    hide Lookup, Find, Reach, RawTree, ListTop, CommitsHideNothing;
    ListedAndFound(edges, prefix, key, value);
    if StartsWith(key, prefix) {
      NothingHidden(Tree(RawTree(edges, prefix).value), key[|prefix|..]);
    }
  }

  /** Enumeration and lookup agree on all pairs exactly when no blob below the prefix lies under a
      commit. */
  lemma EnumerationIsLookupIff(edges: seq<Edge>, prefix: Key)
    requires KeyedEdges(edges) && KeyValues(edges, prefix).Ok?
    ensures (forall key: Key, value: Blob :: Agree(edges, prefix, key, value))
       <==> CommitsHideNothing(Tree(RawTree(edges, prefix).value))
  {
    hide Lookup, Find, Reach, RawTree, ListTop, CommitsHideNothing, Agree, KeyedEdges;
    var es := RawTree(edges, prefix).value;
    if CommitsHideNothing(Tree(es)) {
      forall key: Key, value: Blob
        ensures Agree(edges, prefix, key, value)
      {
        EnumerationIsLookup(edges, prefix, key, value);
      }
    } else {
      RawTreeKeyed(edges, prefix);
      KeyedTree(es);
      var rest := HiddenBlob(Tree(es));
      var key, value := prefix + rest, Reach(Tree(es), rest).value;
      assert key[..|prefix|] == prefix && key[|prefix|..] == rest;
      ListedAndFound(edges, prefix, key, value);
      Disagree(edges, prefix, key, value);
    }
  }

  lemma Disagree(edges: seq<Edge>, prefix: Key, key: Key, value: Blob)
    requires KeyValues(edges, prefix).Ok?
    requires KeyValues(edges, prefix).value.Some? && (key, value) in KeyValues(edges, prefix).value.value
    requires !(|prefix| < |key| && StartsWith(key, prefix) && Lookup(edges, key) == Ok(value))
    ensures !Agree(edges, prefix, key, value)
  {
  }

  lemma NothingAtTheTree(edges: seq<Edge>)
    ensures Find(Tree(edges), []) == None
  {
  }

  // ----- no key twice -----

  ghost predicate DistinctPairs(pairs: seq<Pair>) {
    forall i, j :: 0 <= i < j < |pairs| ==> pairs[i].0 != pairs[j].0
  }

  /** Two lists under different edges share no key. */
  lemma JoinDistinct(a: seq<Pair>, b: seq<Pair>, path: Key, key: string)
    requires DistinctPairs(a) && DistinctPairs(b)
    requires forall i :: 0 <= i < |a| ==> StartsWith(a[i].0, path + [key])
    requires forall i :: 0 <= i < |b| ==> StartsWith(b[i].0, path) && !StartsWith(b[i].0, path + [key])
    ensures DistinctPairs(a + b)
    ensures forall i :: 0 <= i < |a + b| ==> StartsWith((a + b)[i].0, path)
  {
    forall i | 0 <= i < |a|
      ensures StartsWith(a[i].0, path)
    {
      assert a[i].0[..|path|] == a[i].0[..|path| + 1][..|path|];
    }
  }

  lemma {:induction false} ListingDistinct(path: Key, full: Full)
    requires Keyed(full) && Listing(path, full).Ok?
    ensures DistinctPairs(Listing(path, full).value)
    ensures forall i :: 0 <= i < |Listing(path, full).value| ==> StartsWith(Listing(path, full).value[i].0, path)
    decreases full, 1
  {
    match full
    case Blob(_) =>
    case Tree(edges) => ListEdgesDistinct(path, edges);
    case Commit(root) => ListingDistinct(path, root);
  }

  lemma {:induction false} ListEdgesDistinct(path: Key, edges: seq<Edge>)
    requires KeyedEdges(edges) && ListEdges(path, edges).Ok?
    ensures DistinctPairs(ListEdges(path, edges).value)
    ensures forall i :: 0 <= i < |ListEdges(path, edges).value| ==> StartsWith(ListEdges(path, edges).value[i].0, path)
    decreases edges, 1
  {
    hide Keyed, Listing;
    if edges != [] {
      KeyedTail(edges);
      ListEdgesDistinct(path, edges[1..]);
      if !edges[0].full.Missing? {
        ListingDistinct(path + [edges[0].key], edges[0].full);
        var a, b := Listing(path + [edges[0].key], edges[0].full).value, ListEdges(path, edges[1..]).value;
        forall i | 0 <= i < |b|
          ensures !StartsWith(b[i].0, path + [edges[0].key])
        {
          assert b[i] == (b[i].0, b[i].1) && b[i] in b;
          ListEdgesFinds(path, edges[1..], b[i].0, b[i].1);
          ReachStep(edges, path, b[i].0);
        }
        JoinDistinct(a, b, path, edges[0].key);
      }
    }
  }

  lemma {:induction false} ListTopDistinct(path: Key, edges: seq<Edge>)
    requires KeyedEdges(edges) && ListTop(path, edges).Ok?
    ensures DistinctPairs(ListTop(path, edges).value)
    ensures forall i :: 0 <= i < |ListTop(path, edges).value| ==> StartsWith(ListTop(path, edges).value[i].0, path)
    decreases |edges|
  {
    hide Keyed, Listing;
    if edges != [] {
      KeyedTail(edges);
      ListTopDistinct(path, edges[1..]);
      ListingDistinct(path + [edges[0].key], edges[0].full);
      var a, b := Listing(path + [edges[0].key], edges[0].full).value, ListTop(path, edges[1..]).value;
      forall i | 0 <= i < |b|
        ensures !StartsWith(b[i].0, path + [edges[0].key])
      {
        assert b[i] == (b[i].0, b[i].1) && b[i] in b;
        ListTopFinds(path, edges[1..], b[i].0, b[i].1);
        ReachStep(edges, path, b[i].0);
      }
      JoinDistinct(a, b, path, edges[0].key);
    }
  }

  /** No key is listed twice. */
  lemma EnumerationHasNoDuplicates(edges: seq<Edge>, prefix: Key)
    requires KeyedEdges(edges) && KeyValues(edges, prefix).Ok? && KeyValues(edges, prefix).value.Some?
    ensures DistinctPairs(KeyValues(edges, prefix).value.value)
  {
    hide RawTree, ListTop, KeyedEdges;
    RawTreeKeyed(edges, prefix);
    ListTopDistinct(prefix, RawTree(edges, prefix).value);
  }

  // ----- a commit inside a tree -----

  /** The smallest case in which they do not agree: a commit below a tree is enumerated through but
      not looked through. */
  lemma CommitListsMore(value: Blob)
    ensures var edges := [Edge("a", Commit(Tree([Edge("b", Blob(value))])))];
            && KeyValues(edges, []) == Ok(Some([(["a", "b"], value)]))
            && Lookup(edges, ["a", "b"]) == Err
  {
    var inner := [Edge("b", Blob(value))];
    var edges := [Edge("a", Commit(Tree(inner)))];
    var pairs: seq<Pair> := [(["a", "b"], value)];
    assert pairs + [] == pairs;
    assert ["a"] + ["b"] == ["a", "b"] && [] + ["a"] == ["a"];
    assert inner[1..] == [] && edges[1..] == [];
    assert ListEdges(["a"], inner[1..]) == Ok([]);
    assert Listing(["a", "b"], Blob(value)) == Ok([(["a", "b"], value)]);
    assert ListEdges(["a"], inner) == Ok([(["a", "b"], value)]);
    assert Listing(["a"], edges[0].full) == Ok([(["a", "b"], value)]);
    assert ListTop([], edges) == Ok([(["a", "b"], value)]);
    assert ["a", "b"][..1] == ["a"];
    assert RawTree(edges, ["a"]) == Err;
  }

  // ----- when an enumeration succeeds -----

  /** What a commit stands for in an enumeration: the first entry below it that is no commit. */
  function Peel(full: Full): Full {
    match full
    case Commit(root) => Peel(root)
    case _ => full
  }

  /** The entry at a path that may lead through commits. */
  ghost function Through(full: Full, key: Key): Option<Full>
    decreases |key|
  {
    if key == [] then Some(full)
    else
      match Peel(full)
      case Tree(edges) =>
        (match Child(edges, key[0])
         case Some(child) => Through(child, key[1..])
         case None => None)
      case _ => None
  }

  /** A commit whose root is missing. */
  predicate Dangling(full: Full) {
    full.Commit? && Peel(full).Missing?
  }

  /** No path leads to a commit whose root is missing. */
  ghost predicate NoneDangling(full: Full) {
    forall key: Key :: Through(full, key).Some? ==> !Dangling(Through(full, key).value)
  }

  /** A listing is an error exactly for a missing entry and where a commit has lost its root. */
  lemma {:induction false} ListingOkIff(path: Key, full: Full)
    requires Keyed(full)
    ensures Listing(path, full).Ok? <==> !full.Missing? && NoneDangling(full)
    decreases full, 1
  {
    hide NoneDangling, Keyed;
    match full
    case Tree(edges) =>
      assert KeyedEdges(edges) by { KeyedInside(edges); }
      ListEdgesOkIff(path, edges);
      DanglingInTree(edges);
    case Commit(root) =>
      assert Keyed(root) by { KeyedRoot(root); }
      ListingOkIff(path, root);
      DanglingCommit(root);
    case _ => NothingBelow(full);
  }

  lemma NothingBelow(full: Full)
    requires full.Blob? || full.Missing?
    ensures NoneDangling(full)
  {
  }

  lemma DanglingCommit(root: Full)
    ensures NoneDangling(Commit(root)) <==> !root.Missing? && NoneDangling(root)
  {
    var full := Commit(root);
    assert Through(full, []) == Some(full) && Through(root, []) == Some(root);
    assert Peel(full) == Peel(root);
    assert Dangling(full) <==> root.Missing? || Dangling(root) by {
      if !root.Commit? { assert Peel(root) == root; }
    }
    forall key: Key
      ensures Through(full, key) == if key == [] then Some(full) else Through(root, key)
    {
    }
    if NoneDangling(full) {
      assert !Dangling(Through(full, []).value);
      forall key: Key | Through(root, key).Some?
        ensures !Dangling(Through(root, key).value)
      {
        assert Through(full, key).Some?;
      }
    }
    if !root.Missing? && NoneDangling(root) {
      assert !Dangling(Through(root, []).value);
    }
  }

  lemma DanglingInTree(edges: seq<Edge>)
    requires DistinctKeys(edges)
    ensures NoneDangling(Tree(edges)) <==> forall i :: 0 <= i < |edges| ==> NoneDangling(edges[i].full)
  {
    hide Child, Dangling;
    if NoneDangling(Tree(edges)) {
      forall i, key: Key | 0 <= i < |edges| && Through(edges[i].full, key).Some?
        ensures !Dangling(Through(edges[i].full, key).value)
      {
        EdgeIsChild(edges, i);
        var longer := [edges[i].key] + key;
        assert longer[1..] == key;
        assert Through(Tree(edges), longer) == Through(edges[i].full, key);
      }
    }
    if forall i :: 0 <= i < |edges| ==> NoneDangling(edges[i].full) {
      forall key: Key | Through(Tree(edges), key).Some?
        ensures !Dangling(Through(Tree(edges), key).value)
      {
        if key == [] {
          TreeIsNotDangling(edges);
        } else {
          var i := ChildIsEdge(edges, key[0]);
          assert NoneDangling(edges[i].full);
        }
      }
    }
  }

  lemma TreeIsNotDangling(edges: seq<Edge>)
    ensures !Dangling(Tree(edges))
  {
  }

  lemma {:induction false} ListEdgesOkIff(path: Key, edges: seq<Edge>)
    requires KeyedEdges(edges)
    ensures ListEdges(path, edges).Ok? <==> forall i :: 0 <= i < |edges| ==> NoneDangling(edges[i].full)
    decreases edges, 1
  {
    hide Listing, NoneDangling, Keyed;
    if edges != [] {
      KeyedTail(edges);
      ListEdgesOkIff(path, edges[1..]);
      ListingOkIff(path + [edges[0].key], edges[0].full);
      if edges[0].full.Missing? { NothingBelow(edges[0].full); }
      FirstAndOthers(edges);
    }
  }

  lemma FirstAndOthers(edges: seq<Edge>)
    requires edges != []
    ensures (forall i :: 0 <= i < |edges| ==> NoneDangling(edges[i].full))
       <==> NoneDangling(edges[0].full) && forall i :: 0 <= i < |edges[1..]| ==> NoneDangling(edges[1..][i].full)
  {
    hide NoneDangling;
    assert forall i :: 0 <= i < |edges[1..]| ==> edges[1..][i] == edges[i + 1];
    assert forall i :: 1 <= i < |edges| ==> edges[i] == edges[1..][i - 1];
  }

  lemma {:induction false} ListTopOkIff(path: Key, edges: seq<Edge>)
    requires KeyedEdges(edges)
    ensures ListTop(path, edges).Ok?
       <==> forall i :: 0 <= i < |edges| ==> !edges[i].full.Missing? && NoneDangling(edges[i].full)
    decreases |edges|
  {
    hide Listing, NoneDangling, Keyed;
    if edges != [] {
      KeyedTail(edges);
      ListTopOkIff(path, edges[1..]);
      ListingOkIff(path + [edges[0].key], edges[0].full);
      assert forall i :: 0 <= i < |edges[1..]| ==> edges[1..][i] == edges[i + 1];
      assert forall i :: 1 <= i < |edges| ==> edges[i] == edges[1..][i - 1];
    }
  }

  /** The three answers of an enumeration. It is an error exactly when the way to the prefix is
      blocked, a child there is missing or a commit below has lost its root; otherwise there are no
      pairs exactly when no blob can be reached, in particular where the prefix leads nowhere. */
  lemma KeyValuesCases(edges: seq<Edge>, prefix: Key)
    requires KeyedEdges(edges)
    ensures var es := EdgesAt(edges, prefix);
            && (KeyValues(edges, prefix).Err? <==>
                  || Blocked(edges, prefix)
                  || (exists i :: 0 <= i < |es| && es[i].full.Missing?)
                  || !NoneDangling(Tree(es)))
            && (KeyValues(edges, prefix) == Ok(None) <==>
                  KeyValues(edges, prefix).Ok? && forall key: Key :: Reach(Tree(es), key).None?)
  {
    hide Blocked, EdgesAt, NoneDangling, RawTree, KeyedEdges, Reach;
    RawTreeIs(edges, prefix);
    if RawTree(edges, prefix).Ok? {
      RawTreeKeyed(edges, prefix);
      var es := RawTree(edges, prefix).value;
      ListTopOkIff(prefix, es);
      DanglingInTree(es) by { KeyedIsDistinct(es); }
      if ListTop(prefix, es).Ok? { NothingListed(prefix, es); }
    }
  }

  lemma NothingListed(path: Key, edges: seq<Edge>)
    requires KeyedEdges(edges) && ListTop(path, edges).Ok?
    ensures ListTop(path, edges).value == [] <==> forall key: Key :: Reach(Tree(edges), key).None?
  {
    hide Reach, ListTop;
    var pairs := ListTop(path, edges).value;
    if pairs != [] {
      var (key, value) := pairs[0];
      assert (key, value) in pairs;
      ListTopFinds(path, edges, key, value);
    }
    forall key: Key | Reach(Tree(edges), key).Some?
      ensures pairs != []
    {
      var longer := path + key;
      assert longer[|path|..] == key && longer[..|path|] == path;
      ListTopFinds(path, edges, longer, Reach(Tree(edges), key).value);
    }
  }
}
