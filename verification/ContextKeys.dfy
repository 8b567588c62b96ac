/** Keys as text, and what becomes of the keys that an enumeration keeps as text
    (tezos/new_context/src/tezedge_context.rs). */
module ContextKeys {
  import opened Basics
  import opened ContextTree
  import opened ContextListing

  // ----- keys as text -----

  /** `key_to_string`. */
  function KeyText(key: Key): string {
    if key == [] then ""
    else if |key| == 1 then key[0]
    else KeyText(key[..|key| - 1]) + "/" + key[|key| - 1]
  }

  /** `string_to_key`. */
  function SplitText(s: string): (key: Key)
    ensures key != []
  {
    if s == "" then [""]
    else
      var k := |s| - 1;
      var before := SplitText(s[..k]);
      if s[k] == '/' then before + [""] else before[..|before| - 1] + [before[|before| - 1] + [s[k]]]
  }

  predicate SlashFree(fragment: string) {
    '/' !in fragment
  }

  lemma {:induction false} SplitAfterSlash(s: string, fragment: string)
    requires SlashFree(fragment)
    ensures SplitText(s + "/" + fragment) == SplitText(s) + [fragment]
  {
    var all := s + "/" + fragment;
    var k := |all| - 1;
    if fragment == "" {
      assert all[..k] == s && all[k] == '/';
    } else {
      var n := |fragment| - 1;
      assert all[..k] == s + "/" + fragment[..n] && all[k] == fragment[n];
      assert '/' !in fragment[..n] && fragment[n] in fragment;
      SplitAfterSlash(s, fragment[..n]);
      assert fragment == fragment[..n] + [fragment[n]];
    }
  }

  lemma {:induction false} SplitFragment(fragment: string)
    requires SlashFree(fragment)
    ensures SplitText(fragment) == [fragment]
  {
    if fragment != "" {
      var n := |fragment| - 1;
      assert '/' !in fragment[..n] && fragment[n] in fragment;
      SplitFragment(fragment[..n]);
      assert fragment == fragment[..n] + [fragment[n]];
    }
  }

  /** A key that is not empty survives the trip through its text when no fragment has a slash in
      it, and only then (`SlashInKeyIsLost`). */
  lemma {:induction false} KeyTextRoundTrip(key: Key)
    requires key != [] && forall i :: 0 <= i < |key| ==> SlashFree(key[i])
    ensures SplitText(KeyText(key)) == key
    decreases |key|
  {
    var k := |key| - 1;
    if k == 0 {
      SplitFragment(key[0]);
    } else {
      KeyTextRoundTrip(key[..k]);
      SplitAfterSlash(KeyText(key[..k]), key[k]);
      assert key == key[..k] + [key[k]];
    }
  }

  lemma {:induction false} SplitIsSlashFree(s: string, i: nat)
    requires i < |SplitText(s)|
    ensures SlashFree(SplitText(s)[i])
  {
    if s != "" {
      var k := |s| - 1;
      var before := SplitText(s[..k]);
      if i < |before| { SplitIsSlashFree(s[..k], i); }
    }
  }

  lemma SlashInKeyIsLost(key: Key, i: nat)
    requires i < |key| && !SlashFree(key[i])
    ensures SplitText(KeyText(key)) != key
  {
    if SplitText(KeyText(key)) == key { SplitIsSlashFree(KeyText(key), i); }
  }

  /** The text of a key grows by one fragment the way the enumeration builds its paths. */
  lemma ExtendText(path: Key, key: string)
    ensures KeyText(path + [key]) == KeyText(path) + (if path == [] then "" else "/") + key
  {
    assert (path + [key])[..|path|] == path;
    assert path == [] ==> path + [key] == [key];
  }

  // ----- keys that went through their text -----

  /** The enumeration keeps paths as text and splits them again for its result. */
  function Respelled(pairs: seq<Pair>): (r: seq<Pair>)
    ensures |r| == |pairs|
    ensures forall i :: 0 <= i < |pairs| ==> r[i] == (SplitText(KeyText(pairs[i].0)), pairs[i].1)
  {
    seq(|pairs|, i requires 0 <= i < |pairs| => (SplitText(KeyText(pairs[i].0)), pairs[i].1))
  }

  /** The vector of pairs after an enumeration has pushed to it. */
  function Extend(pairs: seq<Pair>, more: Result<seq<Pair>>): Result<seq<Pair>> {
    if more.Ok? then Ok(pairs + Respelled(more.value)) else Err
  }

  lemma ExtendBoth(pairs: seq<Pair>, a: Result<seq<Pair>>, b: Result<seq<Pair>>)
    ensures a.Ok? ==> Extend(pairs, Both(a, b)) == Extend(pairs + Respelled(a.value), b)
    ensures a.Err? ==> Extend(pairs, Both(a, b)) == Err
  {
    hide SplitText, KeyText;
    if a.Ok? && b.Ok? {
      assert Respelled(a.value + b.value) == Respelled(a.value) + Respelled(b.value);
      assert pairs + (Respelled(a.value) + Respelled(b.value)) == (pairs + Respelled(a.value)) + Respelled(b.value);
    }
  }

  lemma ExtendErr(pairs: seq<Pair>, more: Result<seq<Pair>>)
    ensures Extend(pairs, more).Ok? == more.Ok?
    ensures more.Ok? ==> Extend(pairs, more).value == pairs + Respelled(more.value)
  {
  }

  lemma ExtendNothing(pairs: seq<Pair>, more: Result<seq<Pair>>)
    ensures Extend(pairs, Ok([])) == Ok(pairs)
    ensures more.Ok? ==> Extend([], more) == Ok(Respelled(more.value))
  {
    hide SplitText, KeyText;
    assert Respelled([]) == [] && pairs + [] == pairs;
    if more.Ok? { assert [] + Respelled(more.value) == Respelled(more.value); }
  }

  ghost predicate CleanKey(key: Key) {
    forall i :: 0 <= i < |key| ==> SlashFree(key[i])
  }

  /** All keys of a tree are free of slashes. */
  ghost predicate Clean(full: Full)
    decreases full, 0
  {
    match full
    case Tree(edges) => CleanEdges(edges)
    case Commit(root) => Clean(root)
    case _ => true
  }

  ghost predicate CleanEdges(edges: seq<Edge>)
    decreases edges, 0
  {
    forall i :: 0 <= i < |edges| ==> SlashFree(edges[i].key) && Clean(edges[i].full)
  }

  ghost predicate CleanPairs(pairs: seq<Pair>) {
    forall i :: 0 <= i < |pairs| ==> CleanKey(pairs[i].0)
  }

  lemma {:induction false} ListingClean(path: Key, full: Full)
    requires CleanKey(path) && Clean(full) && Listing(path, full).Ok?
    ensures CleanPairs(Listing(path, full).value)
    decreases full, 1
  {
    match full
    case Blob(_) =>
    case Tree(edges) => ListEdgesClean(path, edges);
    case Commit(root) => ListingClean(path, root);
  }

  lemma {:induction false} ListEdgesClean(path: Key, edges: seq<Edge>)
    requires CleanKey(path) && CleanEdges(edges) && ListEdges(path, edges).Ok?
    ensures CleanPairs(ListEdges(path, edges).value)
    decreases edges, 1
  {
    hide Listing, Clean;
    if edges != [] {
      ListEdgesClean(path, edges[1..]);
      if !edges[0].full.Missing? { ListingClean(path + [edges[0].key], edges[0].full); }
    }
  }

  lemma {:induction false} ListTopClean(path: Key, edges: seq<Edge>)
    requires CleanKey(path) && CleanEdges(edges) && ListTop(path, edges).Ok?
    ensures CleanPairs(ListTop(path, edges).value)
    decreases |edges|
  {
    hide Listing, Clean;
    if edges != [] {
      ListTopClean(path, edges[1..]);
      ListingClean(path + [edges[0].key], edges[0].full);
    }
  }

  ghost predicate NoEmptyKeys(pairs: seq<Pair>) {
    forall i :: 0 <= i < |pairs| ==> pairs[i].0 != []
  }

  lemma {:induction false} ListingHasKeys(path: Key, full: Full)
    requires path != [] && Listing(path, full).Ok?
    ensures NoEmptyKeys(Listing(path, full).value)
    decreases full, 1
  {
    match full
    case Blob(_) =>
    case Tree(edges) => ListEdgesHasKeys(path, edges);
    case Commit(root) => ListingHasKeys(path, root);
  }

  lemma {:induction false} ListEdgesHasKeys(path: Key, edges: seq<Edge>)
    requires ListEdges(path, edges).Ok?
    ensures NoEmptyKeys(ListEdges(path, edges).value)
    decreases edges, 1
  {
    hide Listing;
    if edges != [] {
      ListEdgesHasKeys(path, edges[1..]);
      if !edges[0].full.Missing? { ListingHasKeys(path + [edges[0].key], edges[0].full); }
    }
  }

  lemma {:induction false} ListTopHasKeys(path: Key, edges: seq<Edge>)
    requires ListTop(path, edges).Ok?
    ensures NoEmptyKeys(ListTop(path, edges).value)
    decreases |edges|
  {
    hide Listing;
    if edges != [] {
      ListTopHasKeys(path, edges[1..]);
      ListingHasKeys(path + [edges[0].key], edges[0].full);
    }
  }

  lemma RespelledIff(pairs: seq<Pair>)
    requires NoEmptyKeys(pairs)
    ensures Respelled(pairs) == pairs <==> CleanPairs(pairs)
  {
    hide KeyText, SplitText, SlashFree;
    forall i | 0 <= i < |pairs|
      ensures Respelled(pairs)[i] == pairs[i] <==> CleanKey(pairs[i].0)
    {
      KeySurvivesIff(pairs[i].0);
    }
  }

  lemma KeySurvivesIff(key: Key)
    requires key != []
    ensures SplitText(KeyText(key)) == key <==> CleanKey(key)
  {
    hide KeyText, SplitText, SlashFree;
    if CleanKey(key) {
      KeyTextRoundTrip(key);
    } else {
      var i :| 0 <= i < |key| && !SlashFree(key[i]);
      SlashInKeyIsLost(key, i);
    }
  }

  lemma {:induction false} RawTreeClean(edges: seq<Edge>, prefix: Key)
    requires CleanEdges(edges) && RawTree(edges, prefix).Ok?
    ensures CleanEdges(RawTree(edges, prefix).value)
    decreases |prefix|
  {
    if prefix != [] {
      match Child(edges, prefix[0])
      case Some(Tree(es)) =>
        ChildClean(edges, prefix[0]);
        RawTreeClean(es, prefix[1..]);
      case _ =>
    }
  }

  lemma {:induction false} ChildClean(edges: seq<Edge>, key: string)
    requires CleanEdges(edges) && Child(edges, key).Some?
    ensures Clean(Child(edges, key).value)
  {
    hide Clean;
    if edges[0].key != key { ChildClean(edges[1..], key); }
  }

  /** `_get_context_key_values_by_prefix` with the keys as they are pushed. */
  function PushedKeyValues(edges: seq<Edge>, prefix: Key): Result<Option<seq<Pair>>> {
    match RawTree(edges, prefix)
    case Err => Err
    case Ok(es) =>
      match ListTop(prefix, es)
      case Err => Err
      case Ok(pairs) => if pairs == [] then Ok(None) else Ok(Some(Respelled(pairs)))
  }

  /** An enumeration pushes the keys of the tree if and only if no listed key has a slash in a
      fragment. */
  lemma PushedIsKeyValuesIff(edges: seq<Edge>, prefix: Key)
    ensures PushedKeyValues(edges, prefix) == KeyValues(edges, prefix) <==>
              (KeyValues(edges, prefix).Ok? && KeyValues(edges, prefix).value.Some? ==>
                 CleanPairs(KeyValues(edges, prefix).value.value))
  {
    hide CleanPairs, RawTree, ListTop, Respelled;
    if RawTree(edges, prefix).Ok? {
      var es := RawTree(edges, prefix).value;
      if ListTop(prefix, es).Ok? {
        ListTopHasKeys(prefix, es);
        RespelledIff(ListTop(prefix, es).value);
      }
    }
  }

  /** So it does in a tree without slashes. */
  lemma PushedIsKeyValues(edges: seq<Edge>, prefix: Key)
    requires CleanEdges(edges) && CleanKey(prefix)
    ensures PushedKeyValues(edges, prefix) == KeyValues(edges, prefix)
  {
    hide CleanEdges, CleanKey, RawTree, ListTop, PushedKeyValues;
    PushedIsKeyValuesIff(edges, prefix);
    if RawTree(edges, prefix).Ok? {
      RawTreeClean(edges, prefix);
      var es := RawTree(edges, prefix).value;
      if ListTop(prefix, es).Ok? { ListTopClean(prefix, es); }
    }
  }
}
