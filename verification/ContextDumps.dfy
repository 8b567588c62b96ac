/** Dumps below a prefix with a depth limit (`_get_context_tree_by_prefix`,
    tezos/new_context/src/tezedge_context.rs), on the fully loaded tree. */
module ContextDumps {
  import opened Basics
  import opened ContextTree

  datatype Json = Null | Leaf(hex: string) | Object(members: seq<Member>)

  datatype Member = Member(key: string, value: Json)

  const HEX_DIGITS := "0123456789abcdef"

  function HexEncode(bytes: Blob): string {
    if bytes == [] then ""
    else [HEX_DIGITS[bytes[0] / 16], HEX_DIGITS[bytes[0] % 16]] + HexEncode(bytes[1..])
  }

  function Below(depth: Option<nat>): Option<nat>
    requires depth != Some(0)
  {
    if depth.Some? then Some(depth.value - 1) else None
  }

  /** `get_context_recursive`: an entry is loaded before its depth is looked at. */
  function Dump(full: Full, depth: Option<nat>): Result<Json>
    decreases full, 0
  {
    if depth == Some(0) then Ok(Null)
    else
      match full
      case Blob(value) => Ok(Leaf(HexEncode(value)))
      case Tree(edges) => DumpEdges(edges, Below(depth))
      case Commit(_) => Err
      case Missing => Err
  }

  function DumpMembers(edges: seq<Edge>, depth: Option<nat>): (r: Result<seq<Member>>)
    ensures r.Ok? ==> |r.value| == |edges|
    decreases edges, 0
  {
    if edges == [] then Ok([])
    else if edges[0].full.Missing? then Err
    else
      var first, others := Dump(edges[0].full, depth), DumpMembers(edges[1..], depth);
      if first.Ok? && others.Ok? then Ok([Member(edges[0].key, first.value)] + others.value) else Err
  }

  function DumpEdges(edges: seq<Edge>, depth: Option<nat>): Result<Json>
    decreases edges, 1
  {
    match DumpMembers(edges, depth)
    case Ok(members) => Ok(Object(members))
    case Err => Err
  }

  /** `_get_context_tree_by_prefix`. */
  function DumpPrefix(edges: seq<Edge>, prefix: Key, depth: Option<nat>): Result<Json> {
    if depth == Some(0) then Ok(Null)
    else
      match RawTree(edges, prefix)
      case Ok(es) => DumpEdges(es, Below(depth))
      case Err => Err
  }

  /** Cuts a dump at a depth. */
  function Truncate(json: Json, depth: nat): Json
    decreases json, 0
  {
    if depth == 0 then Null
    else
      match json
      case Object(members) => Object(TruncateMembers(members, depth - 1))
      case _ => json
  }

  function TruncateMembers(members: seq<Member>, depth: nat): seq<Member>
    decreases members, 0
  {
    if members == [] then []
    else [Member(members[0].key, Truncate(members[0].value, depth))] + TruncateMembers(members[1..], depth)
  }

  /** `longer` reaches at least as deep as `depth`. */
  predicate AtLeast(longer: Option<nat>, depth: nat) {
    longer.Some? ==> depth <= longer.value
  }

  lemma {:induction false} DumpIsTruncation(full: Full, depth: nat, longer: Option<nat>)
    requires AtLeast(longer, depth) && Dump(full, longer).Ok?
    ensures Dump(full, Some(depth)) == Ok(Truncate(Dump(full, longer).value, depth))
    decreases full, 0
  {
    match full
    case Tree(edges) => if depth > 0 { MembersAreTruncated(edges, depth - 1, Below(longer)); }
    case _ =>
  }

  lemma {:induction false} MembersAreTruncated(edges: seq<Edge>, depth: nat, longer: Option<nat>)
    requires AtLeast(longer, depth) && DumpMembers(edges, longer).Ok?
    ensures DumpMembers(edges, Some(depth)) == Ok(TruncateMembers(DumpMembers(edges, longer).value, depth))
    decreases edges, 0
  {
    hide Dump, Truncate;
    if edges != [] {
      DumpIsTruncation(edges[0].full, depth, longer);
      MembersAreTruncated(edges[1..], depth, longer);
      var all := DumpMembers(edges, longer).value;
      assert all[1..] == DumpMembers(edges[1..], longer).value;
    }
  }

  lemma CutAtTheTop(json: Json)
    ensures Truncate(json, 0) == Null
  {
  }

  lemma CutObject(members: seq<Member>, depth: nat)
    requires depth > 0
    ensures Truncate(Object(members), depth) == Object(TruncateMembers(members, depth - 1))
  {
    hide TruncateMembers;
  }

  /** The dump to a depth is every deeper dump, the unlimited one included, cut at that depth. */
  lemma PrefixDumpIsTruncation(edges: seq<Edge>, prefix: Key, depth: nat, longer: Option<nat>)
    requires AtLeast(longer, depth) && DumpPrefix(edges, prefix, longer).Ok?
    ensures DumpPrefix(edges, prefix, Some(depth)) == Ok(Truncate(DumpPrefix(edges, prefix, longer).value, depth))
  {
    hide DumpMembers, TruncateMembers, Truncate, RawTree;
    if depth == 0 {
      CutAtTheTop(DumpPrefix(edges, prefix, longer).value);
    } else {
      var es := RawTree(edges, prefix).value;
      MembersAreTruncated(es, depth - 1, Below(longer));
      CutObject(DumpMembers(es, Below(longer)).value, depth);
    }
  }

  // ----- when a dump succeeds -----

  /** A dump opens the entries above its depth, and loads those at it as well. */
  predicate Opens(depth: Option<nat>, k: nat) {
    depth.Some? ==> k < depth.value
  }

  predicate Loads(depth: Option<nat>, k: nat) {
    depth.Some? ==> k <= depth.value && depth.value > 0
  }

  ghost predicate Dumpable(full: Full, depth: Option<nat>) {
    forall key: Key :: At(full, key).Some? ==>
      && (Loads(depth, |key|) ==> !At(full, key).value.Missing?)
      && (Opens(depth, |key|) ==> !At(full, key).value.Commit?)
  }

  lemma {:induction false} MembersOkIff(edges: seq<Edge>, depth: Option<nat>)
    ensures DumpMembers(edges, depth).Ok?
       <==> forall i :: 0 <= i < |edges| ==> !edges[i].full.Missing? && Dump(edges[i].full, depth).Ok?
    decreases |edges|
  {
    hide Dump;
    if edges != [] {
      var tail := edges[1..];
      MembersOkIff(tail, depth);
      assert forall i :: 0 <= i < |tail| ==> tail[i] == edges[i + 1];
      assert forall i :: 1 <= i < |edges| ==> edges[i] == tail[i - 1];
    }
  }

  /** A tree can be dumped exactly when its children are there and can be dumped one level less. */
  lemma DumpableTree(edges: seq<Edge>, depth: Option<nat>)
    requires DistinctKeys(edges) && depth != Some(0)
    ensures Dumpable(Tree(edges), depth)
       <==> forall i :: 0 <= i < |edges| ==> !edges[i].full.Missing? && Dumpable(edges[i].full, Below(depth))
  {
    hide At, Child;
    if Dumpable(Tree(edges), depth) {
      forall i | 0 <= i < |edges|
        ensures !edges[i].full.Missing? && Dumpable(edges[i].full, Below(depth))
      {
        AtChild(edges, i, []);
        AtNothing(edges[i].full);
        forall key: Key | At(edges[i].full, key).Some?
          ensures Loads(Below(depth), |key|) ==> !At(edges[i].full, key).value.Missing?
          ensures Opens(Below(depth), |key|) ==> !At(edges[i].full, key).value.Commit?
        {
          AtChild(edges, i, key);
          assert At(Tree(edges), [edges[i].key] + key).Some?;
        }
      }
    }
    if forall i :: 0 <= i < |edges| ==> !edges[i].full.Missing? && Dumpable(edges[i].full, Below(depth)) {
      forall key: Key | At(Tree(edges), key).Some?
        ensures Loads(depth, |key|) ==> !At(Tree(edges), key).value.Missing?
        ensures Opens(depth, |key|) ==> !At(Tree(edges), key).value.Commit?
      {
        if key == [] {
          AtNothing(Tree(edges));
        } else {
          var i := AtStep(edges, key);
          assert Dumpable(edges[i].full, Below(depth));
          if key[1..] == [] { AtNothing(edges[i].full); }
        }
      }
    }
  }

  lemma {:induction false} DumpOkIff(full: Full, depth: Option<nat>)
    requires Keyed(full)
    ensures Dump(full, depth).Ok? <==> Dumpable(full, depth)
    decreases full
  {
    hide At, Dumpable, Keyed, DumpMembers;
    if depth == Some(0) {
      DepthZero(full);
    } else {
      match full
      case Tree(edges) =>
        assert KeyedEdges(edges) by { KeyedInside(edges); }
        DumpableTree(edges, depth);
        MembersOkIff(edges, Below(depth));
        forall i | 0 <= i < |edges|
          ensures Dump(edges[i].full, Below(depth)).Ok? <==> Dumpable(edges[i].full, Below(depth))
        {
          DumpOkIff(edges[i].full, Below(depth));
        }
      case _ => DumpableLeaf(full, depth);
    }
  }

  lemma DepthZero(full: Full)
    ensures Dumpable(full, Some(0))
  {
  }

  lemma DumpableLeaf(full: Full, depth: Option<nat>)
    requires !full.Tree? && depth != Some(0)
    ensures Dumpable(full, depth) <==> full.Blob?
  {
    AtNothing(full);
    assert At(full, []).Some?;
  }

  /** A dump to any depth succeeds exactly when the way to the prefix is not blocked and, below the
      prefix, no entry down to that depth is missing and none above it is a commit. */
  lemma PrefixDumpOkIff(edges: seq<Edge>, prefix: Key, depth: Option<nat>)
    requires KeyedEdges(edges)
    ensures DumpPrefix(edges, prefix, depth).Ok?
       <==> depth == Some(0) || (!Blocked(edges, prefix) && Dumpable(Tree(EdgesAt(edges, prefix)), depth))
  {
    hide Dumpable, RawTree, KeyedEdges, Blocked, EdgesAt;
    RawTreeIs(edges, prefix);
    if depth != Some(0) && RawTree(edges, prefix).Ok? {
      RawTreeKeyed(edges, prefix);
      var es := RawTree(edges, prefix).value;
      KeyedTree(es);
      DumpOkIff(Tree(es), depth);
    }
  }

  // ----- what a dump shows -----

  /** The part of a dump at a path. */
  function JsonAt(json: Json, key: Key): Option<Json>
    decreases |key|
  {
    if key == [] then Some(json)
    else if !json.Object? then None
    else
      match MemberOf(json.members, key[0])
      case Some(value) => JsonAt(value, key[1..])
      case None => None
  }

  function MemberOf(members: seq<Member>, key: string): Option<Json> {
    if members == [] then None
    else if members[0].key == key then Some(members[0].value)
    else MemberOf(members[1..], key)
  }

  /** What stands for an entry `k` levels down: nothing is shown from the depth on, above it a blob
      shows its bytes and a tree the names of its children in order. */
  ghost predicate Shows(json: Option<Json>, full: Option<Full>, depth: Option<nat>, k: nat) {
    if depth.Some? && k > depth.value then json == None
    else if full.None? then json == None
    else if depth == Some(k) then json == Some(Null)
    else
      match full.value
      case Blob(value) => json == Some(Leaf(HexEncode(value)))
      case Tree(edges) =>
        && json.Some? && json.value.Object? && |json.value.members| == |edges|
        && forall i :: 0 <= i < |edges| ==> json.value.members[i].key == edges[i].key
      case _ => false
  }

  lemma {:induction false} MembersAre(edges: seq<Edge>, depth: Option<nat>, key: string)
    requires DumpMembers(edges, depth).Ok?
    ensures var members := DumpMembers(edges, depth).value;
            && (forall i :: 0 <= i < |edges| ==> members[i].key == edges[i].key)
            && MemberOf(members, key).Some? == Child(edges, key).Some?
            && (Child(edges, key).Some? ==>
                  Dump(Child(edges, key).value, depth) == Ok(MemberOf(members, key).value))
    decreases |edges|
  {
    hide Dump;
    if edges != [] {
      MembersAre(edges[1..], depth, key);
      var members := DumpMembers(edges, depth).value;
      assert members[1..] == DumpMembers(edges[1..], depth).value;
    }
  }

  /** A dump that succeeds shows, at every path, the entry of the tree at that path. */
  lemma {:induction false} DumpShows(full: Full, depth: Option<nat>, key: Key)
    requires Dump(full, depth).Ok?
    ensures Shows(JsonAt(Dump(full, depth).value, key), At(full, key), depth, |key|)
    decreases |key|
  {
    hide HexEncode;
    var json := Dump(full, depth).value;
    if depth == Some(0) {
    } else if full.Tree? {
      if key == [] {
        MembersAre(full.edges, Below(depth), "");
      } else {
        MembersAre(full.edges, Below(depth), key[0]);
        match Child(full.edges, key[0])
        case Some(child) =>
          DumpShows(child, Below(depth), key[1..]);
          ShownOneLevelDown(JsonAt(json, key), At(full, key), depth, |key|);
        case None =>
      }
    }
  }

  lemma ShownOneLevelDown(json: Option<Json>, full: Option<Full>, depth: Option<nat>, k: nat)
    requires k > 0 && depth != Some(0) && Shows(json, full, Below(depth), k - 1)
    ensures Shows(json, full, depth, k)
  {
    hide HexEncode;
  }

  /** So does a dump below a prefix. Where the prefix leads nowhere or to a blob, it shows an object
      without members. */
  lemma PrefixDumpShows(edges: seq<Edge>, prefix: Key, depth: Option<nat>, key: Key)
    requires DumpPrefix(edges, prefix, depth).Ok?
    ensures Shows(JsonAt(DumpPrefix(edges, prefix, depth).value, key), At(Tree(EdgesAt(edges, prefix)), key), depth, |key|)
    ensures EdgesAt(edges, prefix) == [] && depth != Some(0) ==> DumpPrefix(edges, prefix, depth) == Ok(Object([]))
  {
    hide RawTree, EdgesAt, Blocked, Shows;
    RawTreeIs(edges, prefix);
    var es := EdgesAt(edges, prefix);
    assert DumpPrefix(edges, prefix, depth) == Dump(Tree(es), depth);
    DumpShows(Tree(es), depth, key);
  }

  /** In a dump without a limit, the leaf at a path below the prefix is the hexadecimal text of the
      value that a lookup finds there, and there is no leaf where a lookup finds nothing. */
  lemma DumpIsLookup(edges: seq<Edge>, prefix: Key, key: Key, value: Blob)
    requires DumpPrefix(edges, prefix, None).Ok? && key != []
    ensures JsonAt(DumpPrefix(edges, prefix, None).value, key) == Some(Leaf(HexEncode(value)))
       <==> Lookup(edges, prefix + key) == Ok(value)
  {
    hide RawTree, HexEncode, Lookup, Shows;
    var es := RawTree(edges, prefix).value;
    assert DumpPrefix(edges, prefix, None) == Dump(Tree(es), None);
    DumpShows(Tree(es), None, key);
    RawTreeFinds(edges, prefix, key);
    LookupFinds(edges, prefix + key, value);
    FindIsAt(Tree(es), key);
    LeafShown(JsonAt(DumpPrefix(edges, prefix, None).value, key), At(Tree(es), key), |key|, value);
  }

  lemma LeafShown(json: Option<Json>, full: Option<Full>, k: nat, value: Blob)
    requires Shows(json, full, None, k)
    ensures json == Some(Leaf(HexEncode(value))) <==> full == Some(Full.Blob(value))
  {
    hide HexEncode;
    if full.Some? && full.value.Blob? && json == Some(Leaf(HexEncode(value))) {
      HexDecodes(value);
      HexDecodes(full.value.value);
    }
  }

  /** The bytes that text of two lower-case hexadecimal digits each stands for. */
  function HexDecode(s: string): Option<Blob>
    decreases |s|
  {
    if s == "" then Some([])
    else if |s| == 1 then None
    else
      var high, low, others := HexValue(s[0]), HexValue(s[1]), HexDecode(s[2..]);
      if high.Some? && low.Some? && others.Some? then Some([16 * high.value + low.value] + others.value) else None
  }

  function HexValue(c: char): (r: Option<nat>)
    ensures r.Some? ==> r.value < 16
  {
    if '0' <= c <= '9' then Some(c as int - '0' as int)
    else if 'a' <= c <= 'f' then Some(10 + (c as int - 'a' as int))
    else None
  }

  lemma {:induction false} HexDecodes(bytes: Blob)
    ensures HexDecode(HexEncode(bytes)) == Some(bytes)
  {
    hide HexValue, HexDecode;
    if bytes == [] {
      NoDigits();
    } else {
      HexDecodes(bytes[1..]);
      var s := HexEncode(bytes);
      assert s[2..] == HexEncode(bytes[1..]);
      DigitBack(bytes[0] / 16);
      DigitBack(bytes[0] % 16);
      DecodeStep(s, bytes[0], bytes[1..]);
      assert [bytes[0]] + bytes[1..] == bytes;
    }
  }

  lemma NoDigits()
    ensures HexDecode("") == Some([])
  {
  }

  lemma DecodeStep(s: string, b: byte, others: Blob)
    requires |s| >= 2 && HexValue(s[0]) == Some(b / 16) && HexValue(s[1]) == Some(b % 16)
    requires HexDecode(s[2..]) == Some(others)
    ensures HexDecode(s) == Some([b] + others)
  {
  }

  lemma DigitBack(d: nat)
    requires d < 16
    ensures HexValue(HEX_DIGITS[d]) == Some(d)
  {
  }

  // ----- member by member -----

  function ExtendMembers(members: seq<Member>, more: Result<seq<Member>>): Result<seq<Member>> {
    if more.Ok? then Ok(members + more.value) else Err
  }

  lemma ExtendMembersNothing(members: seq<Member>, more: Result<seq<Member>>)
    ensures ExtendMembers(members, Ok([])) == Ok(members) && ExtendMembers([], more) == more
  {
    assert members + [] == members;
    if more.Ok? { assert [] + more.value == more.value; }
  }

  lemma ExtendMembersStep(members: seq<Member>, edges: seq<Edge>, depth: Option<nat>)
    requires edges != []
    ensures var first := Dump(edges[0].full, depth);
            ExtendMembers(members, DumpMembers(edges, depth)) ==
            if edges[0].full.Missing? || first.Err? then Err
            else ExtendMembers(members + [Member(edges[0].key, first.value)], DumpMembers(edges[1..], depth))
  {
    hide Dump;
    var first, others := Dump(edges[0].full, depth), DumpMembers(edges[1..], depth);
    if first.Ok? && others.Ok? {
      var m := [Member(edges[0].key, first.value)];
      assert members + (m + others.value) == (members + m) + others.value;
    }
  }
}
