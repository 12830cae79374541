/** The node lists the knowledge base answers with, and the three set operations
    `union_nodes`, `diff_nodes` and `intersect_nodes` that combine two answers. */
module Nodes {
  import opened Results
  import opened Filters

  type NodeId = int
  type FileId = int

  /** An entry of a node's `properties['files']`; `fields` are its other keys. */
  datatype FileRecord = FileRecord(fileId: FileId, fields: map<string, string>)

  /** A node's `properties`: the optional `file_id` and `files` evidence lists and
      every other key. */
  datatype Properties = Properties(
    fileId: Option<seq<FileId>>,
    files: Option<seq<FileRecord>>,
    others: map<string, string>)

  /** A node: its `id`, its optional `properties`, and its other keys. */
  datatype Node = Node(id: NodeId, properties: Option<Properties>, fields: map<string, string>)

  // ---------------------------------------------------------------------------
  // union_nodes (lines 156-165)
  // ---------------------------------------------------------------------------

  function Ids(ns: seq<Node>): set<NodeId> {
    set i | 0 <= i < |ns| :: ns[i].id
  }

  predicate DistinctIds(ns: seq<Node>) {
    forall i, j :: 0 <= i < j < |ns| ==> ns[i].id != ns[j].id
  }

  /** Position of the first node with identifier `id`. */
  function FirstIndex(ns: seq<Node>, id: NodeId): (r: nat)
    requires id in Ids(ns)
    ensures r < |ns| && ns[r].id == id
    ensures forall j :: 0 <= j < r ==> ns[j].id != id
  {
    var init := ns[..|ns| - 1];
    if id in Ids(init) then
      var r := FirstIndex(init, id);
      assert ns[r] == init[r];
      assert forall j :: 0 <= j < r ==> ns[j] == init[j];
      r
    else
      assert forall j :: 0 <= j < |ns| - 1 ==> ns[j] == init[j] && init[j].id in Ids(init);
      |ns| - 1
  }

  /** Position of the last node with identifier `id`. */
  function LastIndex(ns: seq<Node>, id: NodeId): (r: nat)
    requires id in Ids(ns)
    ensures r < |ns| && ns[r].id == id
    ensures forall j :: r < j < |ns| ==> ns[j].id != id
  {
    var init := ns[..|ns| - 1];
    if ns[|ns| - 1].id == id then |ns| - 1
    else
      assert id in Ids(init) by {
        var i :| 0 <= i < |ns| && ns[i].id == id;
        assert init[i] == ns[i];
      }
      var r := LastIndex(init, id);
      assert ns[r] == init[r];
      r
  }

  /** What a Python dict built by assigning `d[n['id']] = n` for every `n` of `all`
      in turn yields as `list(d.values())`: one node per identifier, the last one
      assigned, listed in the order in which identifiers were first assigned. */
  predicate UnionOf(r: seq<Node>, all: seq<Node>) {
    DistinctIds(r) && Ids(r) == Ids(all) && KeepsLast(r, all) && FirstSeenOrder(r, all)
  }

  /** Every node of `r` is the last node of `all` with its identifier. */
  predicate KeepsLast(r: seq<Node>, all: seq<Node>) {
    forall i :: 0 <= i < |r| ==> r[i].id in Ids(all) && r[i] == all[LastIndex(all, r[i].id)]
  }

  /** The identifiers of `r` appear in the order of their first occurrence in `all`. */
  predicate FirstSeenOrder(r: seq<Node>, all: seq<Node>) {
    forall i, j :: 0 <= i < j < |r| ==> SeenBefore(all, r[i].id, r[j].id)
  }

  /** Identifier `a` occurs in `all` before identifier `b` does. */
  predicate SeenBefore(all: seq<Node>, a: NodeId, b: NodeId) {
    a in Ids(all) && b in Ids(all) && FirstIndex(all, a) < FirstIndex(all, b)
  }

  /** `id_map[node['id']] = node`: an existing key keeps its place and takes the
      new value; a new key goes to the end. */
  function Upsert(acc: seq<Node>, n: Node): seq<Node> {
    if n.id in Ids(acc) then acc[FirstIndex(acc, n.id) := n] else acc + [n]
  }

  /** The loops of lines 159-163: upsert every node of `ns` in order into `acc`. */
  function AbsorbAll(acc: seq<Node>, ns: seq<Node>): seq<Node>
    decreases |ns|
  {
    if |ns| == 0 then acc else Upsert(AbsorbAll(acc, ns[..|ns| - 1]), ns[|ns| - 1])
  }

  /** `union_nodes`: the dict of line 157 filled from `nodes1`, then from `nodes2`. */
  function UnionNodes(nodes1: seq<Node>, nodes2: seq<Node>): (r: seq<Node>)
    ensures UnionOf(r, nodes1 + nodes2)
  {
    AbsorbAppend([], nodes1, nodes2);
    AbsorbSpec(nodes1 + nodes2);
    AbsorbAll(AbsorbAll([], nodes1), nodes2)
  }

  /** Two loops over the same dict are one loop over the concatenation. */
  lemma {:induction false} AbsorbAppend(acc: seq<Node>, a: seq<Node>, b: seq<Node>)
    ensures AbsorbAll(acc, a + b) == AbsorbAll(AbsorbAll(acc, a), b)
    decreases |b|
  {
    if |b| == 0 {
      assert a + b == a;
    } else {
      assert (a + b)[..|a + b| - 1] == a + b[..|b| - 1];
      assert (a + b)[|a + b| - 1] == b[|b| - 1];
      AbsorbAppend(acc, a, b[..|b| - 1]);
    }
  }

  /** Filling an empty dict from `ns` yields exactly the union description. */
  lemma {:induction false} AbsorbSpec(ns: seq<Node>)
    ensures UnionOf(AbsorbAll([], ns), ns)
    decreases |ns|
  {
    if |ns| > 0 {
      var init := ns[..|ns| - 1];
      AbsorbSpec(init);
      assert init + [ns[|ns| - 1]] == ns;
      UpsertSpec(AbsorbAll([], init), init, ns[|ns| - 1]);
    }
  }

  lemma FirstIndexAppend(ns: seq<Node>, n: Node, id: NodeId)
    requires id in Ids(ns)
    ensures id in Ids(ns + [n]) && FirstIndex(ns + [n], id) == FirstIndex(ns, id)
  {
    var all := ns + [n];
    var i := FirstIndex(ns, id);
    assert all[i] == ns[i];
    var k := FirstIndex(all, id);
    assert k <= i;
    assert all[k] == ns[k];
  }

  lemma LastIndexAppend(ns: seq<Node>, n: Node, id: NodeId)
    requires id in Ids(ns) && id != n.id
    ensures id in Ids(ns + [n]) && LastIndex(ns + [n], id) == LastIndex(ns, id)
  {
    var all := ns + [n];
    assert all[..|all| - 1] == ns;
    assert all[LastIndex(ns, id)] == ns[LastIndex(ns, id)];
  }

  lemma LastIndexOfAppended(ns: seq<Node>, n: Node)
    ensures n.id in Ids(ns + [n]) && LastIndex(ns + [n], n.id) == |ns|
  {
    assert (ns + [n])[|ns|] == n;
  }

  /** One more assignment keeps the union description. */
  lemma UpsertSpec(acc: seq<Node>, ns: seq<Node>, n: Node)
    requires UnionOf(acc, ns)
    ensures UnionOf(Upsert(acc, n), ns + [n])
  {
    if n.id in Ids(acc) {
      UpsertExisting(acc, ns, n);
    } else {
      UpsertNew(acc, ns, n);
    }
  }

  lemma IdsAppend(ns: seq<Node>, n: Node)
    ensures Ids(ns + [n]) == Ids(ns) + {n.id}
  {
    var all := ns + [n];
    forall id ensures id in Ids(all) <==> id in Ids(ns) + {n.id} {
      if id in Ids(all) {
        var i :| 0 <= i < |all| && all[i].id == id;
        if i < |ns| {
          assert ns[i] == all[i];
        }
      }
      if id in Ids(ns) {
        var i :| 0 <= i < |ns| && ns[i].id == id;
        assert all[i] == ns[i];
      }
      if id == n.id {
        assert all[|ns|] == n;
      }
    }
  }

  lemma IdsUpdate(acc: seq<Node>, k: nat, n: Node)
    requires k < |acc| && acc[k].id == n.id
    ensures Ids(acc[k := n]) == Ids(acc)
  {
    var r := acc[k := n];
    forall id ensures id in Ids(r) <==> id in Ids(acc) {
      if id in Ids(acc) {
        var i :| 0 <= i < |acc| && acc[i].id == id;
        assert r[i].id == id;
      }
      if id in Ids(r) {
        var i :| 0 <= i < |r| && r[i].id == id;
        assert acc[i].id == id;
      }
    }
  }

  lemma UpsertExisting(acc: seq<Node>, ns: seq<Node>, n: Node)
    requires UnionOf(acc, ns) && n.id in Ids(acc)
    ensures UnionOf(Upsert(acc, n), ns + [n])
  {
    var all := ns + [n];
    var k := FirstIndex(acc, n.id);
    var r := acc[k := n];
    assert Upsert(acc, n) == r;
    IdsUpdate(acc, k, n);
    IdsAppend(ns, n);
    assert Ids(r) == Ids(all);
    assert DistinctIds(r) by {
      forall i, j | 0 <= i < j < |r| ensures r[i].id != r[j].id {
        assert r[i].id == acc[i].id && r[j].id == acc[j].id;
      }
    }
    UpsertExistingLast(acc, ns, n);
    UpsertExistingOrder(acc, ns, n);
  }

  lemma UpsertExistingLast(acc: seq<Node>, ns: seq<Node>, n: Node)
    requires UnionOf(acc, ns) && n.id in Ids(acc)
    ensures KeepsLast(acc[FirstIndex(acc, n.id) := n], ns + [n])
  {
    var all := ns + [n];
    var k := FirstIndex(acc, n.id);
    var r := acc[k := n];
    IdsAppend(ns, n);
    forall i | 0 <= i < |r| ensures r[i].id in Ids(all) && r[i] == all[LastIndex(all, r[i].id)] {
      if i == k {
        LastIndexOfAppended(ns, n);
      } else {
        assert acc[i].id != n.id;
        LastIndexAppend(ns, n, acc[i].id);
        assert all[LastIndex(ns, acc[i].id)] == ns[LastIndex(ns, acc[i].id)];
      }
    }
  }

  lemma UpsertExistingOrder(acc: seq<Node>, ns: seq<Node>, n: Node)
    requires UnionOf(acc, ns) && n.id in Ids(acc)
    ensures FirstSeenOrder(acc[FirstIndex(acc, n.id) := n], ns + [n])
  {
    var r := acc[FirstIndex(acc, n.id) := n];
    FirstSeenOrderAppend(acc, ns, n);
    SameIdsOrder(acc, r, ns + [n]);
  }

  /** A later node does not change where identifiers were first seen. */
  lemma FirstSeenOrderAppend(r: seq<Node>, ns: seq<Node>, n: Node)
    requires FirstSeenOrder(r, ns)
    requires forall i :: 0 <= i < |r| ==> r[i].id in Ids(ns)
    ensures FirstSeenOrder(r, ns + [n])
  {
    forall i, j | 0 <= i < j < |r| ensures SeenBefore(ns + [n], r[i].id, r[j].id) {
      assert SeenBefore(ns, r[i].id, r[j].id);
      FirstIndexAppend(ns, n, r[i].id);
      FirstIndexAppend(ns, n, r[j].id);
    }
  }

  /** The order condition only looks at identifiers. */
  lemma SameIdsOrder(a: seq<Node>, b: seq<Node>, all: seq<Node>)
    requires |a| == |b| && forall i :: 0 <= i < |a| ==> a[i].id == b[i].id
    requires FirstSeenOrder(a, all)
    ensures FirstSeenOrder(b, all)
  {
    forall i, j | 0 <= i < j < |b| ensures SeenBefore(all, b[i].id, b[j].id) {
      assert SeenBefore(all, a[i].id, a[j].id);
    }
  }

  lemma UpsertNew(acc: seq<Node>, ns: seq<Node>, n: Node)
    requires UnionOf(acc, ns) && n.id !in Ids(acc)
    ensures UnionOf(Upsert(acc, n), ns + [n])
  {
    var all := ns + [n];
    var r := acc + [n];
    assert Upsert(acc, n) == r;
    IdsAppend(acc, n);
    IdsAppend(ns, n);
    assert forall i :: 0 <= i < |acc| ==> r[i] == acc[i];
    assert r[|acc|] == n;
    assert DistinctIds(r) by {
      forall i, j | 0 <= i < j < |r| ensures r[i].id != r[j].id {
        if j == |acc| {
          assert r[i].id in Ids(acc);
        }
      }
    }
    forall i | 0 <= i < |r| ensures r[i].id in Ids(all) && r[i] == all[LastIndex(all, r[i].id)] {
      if i == |acc| {
        LastIndexOfAppended(ns, n);
      } else {
        assert r[i].id in Ids(acc);
        LastIndexAppend(ns, n, acc[i].id);
        assert all[LastIndex(ns, acc[i].id)] == ns[LastIndex(ns, acc[i].id)];
      }
    }
    forall i, j | 0 <= i < j < |r| ensures SeenBefore(all, r[i].id, r[j].id) {
      FirstIndexAppend(ns, n, r[i].id);
      if j < |acc| {
        FirstIndexAppend(ns, n, r[j].id);
      } else {
        assert r[j].id == n.id && n.id !in Ids(ns);
        assert FirstIndex(all, n.id) == |ns|;
      }
    }
  }

  /** The first-seen order puts every identifier of `nodes1` before every identifier
      that only `nodes2` has. */
  lemma UnionLeftIdsFirst(nodes1: seq<Node>, nodes2: seq<Node>, i: nat, j: nat)
    requires var r := UnionNodes(nodes1, nodes2);
             i < |r| && j < |r| && r[i].id in Ids(nodes1) && r[j].id !in Ids(nodes1)
    ensures i < j
  {
    var r := UnionNodes(nodes1, nodes2);
    var all := nodes1 + nodes2;
    FirstIndexAppendSeq(nodes1, nodes2, r[i].id);
  }

  lemma FirstIndexAppendSeq(a: seq<Node>, b: seq<Node>, id: NodeId)
    requires id in Ids(a)
    ensures id in Ids(a + b) && FirstIndex(a + b, id) == FirstIndex(a, id)
  {
    var all := a + b;
    var i := FirstIndex(a, id);
    assert all[i] == a[i];
    var k := FirstIndex(all, id);
    assert all[k] == a[k];
  }

  /** An identifier present in `nodes2` takes `nodes2`'s last record for it; any
      other identifier keeps `nodes1`'s last record. */
  lemma UnionPrefersRight(nodes1: seq<Node>, nodes2: seq<Node>, i: nat)
    requires i < |UnionNodes(nodes1, nodes2)|
    ensures var r := UnionNodes(nodes1, nodes2);
            && (r[i].id in Ids(nodes2) ==> r[i] == nodes2[LastIndex(nodes2, r[i].id)])
            && (r[i].id !in Ids(nodes2) ==> r[i].id in Ids(nodes1) && r[i] == nodes1[LastIndex(nodes1, r[i].id)])
  {
    KeptIsLast(UnionNodes(nodes1, nodes2), nodes1, nodes2, i);
  }

  lemma KeptIsLast(r: seq<Node>, nodes1: seq<Node>, nodes2: seq<Node>, i: nat)
    requires KeepsLast(r, nodes1 + nodes2) && i < |r|
    ensures && (r[i].id in Ids(nodes2) ==> r[i] == nodes2[LastIndex(nodes2, r[i].id)])
            && (r[i].id !in Ids(nodes2) ==> r[i].id in Ids(nodes1) && r[i] == nodes1[LastIndex(nodes1, r[i].id)])
  {
    var all := nodes1 + nodes2;
    var id := r[i].id;
    assert r[i] == all[LastIndex(all, id)];
    if id in Ids(nodes2) {
      LastIndexInRight(nodes1, nodes2, id);
    } else {
      LastIndexInLeft(nodes1, nodes2, id);
    }
  }

  lemma LastIndexInRight(a: seq<Node>, b: seq<Node>, id: NodeId)
    requires id in Ids(b)
    ensures id in Ids(a + b) && LastIndex(a + b, id) == |a| + LastIndex(b, id)
  {
    var all := a + b;
    var l := LastIndex(b, id);
    assert all[|a| + l] == b[l];
    var k := LastIndex(all, id);
    assert k >= |a| + l;
    assert all[k] == b[k - |a|];
  }

  lemma LastIndexInLeft(a: seq<Node>, b: seq<Node>, id: NodeId)
    requires id in Ids(a + b) && id !in Ids(b)
    ensures id in Ids(a) && LastIndex(a + b, id) == LastIndex(a, id)
  {
    var all := a + b;
    var k := LastIndex(all, id);
    assert all[k] == a[k];
    var l := LastIndex(a, id);
    assert all[l] == a[l];
  }

  /** The example of the union: [{id 1, a}] and [{id 1, b}, {id 2, c}] give
      [{id 1, b}, {id 2, c}]. */
  lemma UnionExample(a: Node, b: Node, c: Node)
    requires a.id == 1 && b.id == 1 && c.id == 2
    ensures UnionNodes([a], [b, c]) == [b, c]
  {
    UpsertIntoEmpty(a);
    assert AbsorbAll([], [a]) == Upsert([], a) by {
      assert [a][..0] == [];
    }
    UpsertReplaces(a, b);
    assert AbsorbAll([a], [b]) == [b] by {
      assert [b][..0] == [];
    }
    UpsertAppends(b, c);
    assert [b, c][..1] == [b];
  }

  lemma UpsertIntoEmpty(n: Node)
    ensures Upsert([], n) == [n]
  {
    assert Ids([]) == {};
  }

  lemma UpsertReplaces(before: Node, after: Node)
    requires before.id == after.id
    ensures Upsert([before], after) == [after]
  {
    assert [before][0].id == after.id;
    assert after.id in Ids([before]);
  }

  lemma UpsertAppends(n: Node, m: Node)
    requires n.id != m.id
    ensures Upsert([n], m) == [n, m]
  {
    assert n.id in Ids([n]) by {
      assert [n][0].id == n.id;
    }
    assert m.id !in Ids([n]);
  }

  // ---------------------------------------------------------------------------
  // diff_nodes and intersect_nodes (lines 168-211)
  // ---------------------------------------------------------------------------

  /** The list comprehensions of lines 183, 186, 206 and 209: keep the entries whose
      file identifier is in `ids` (`keep`) or is not (`!keep`), in their order. */
  function Select<T(==, !new)>(xs: seq<T>, key: T -> FileId, ids: set<FileId>, keep: bool): (r: seq<T>)
    ensures FilteredFrom(r, xs, key, ids, keep)
    ensures forall x :: x in r <==> x in xs && (key(x) in ids) == keep
  {
    if |xs| == 0 then []
    else
      var rest := Select(xs[1..], key, ids, keep);
      assert xs == [xs[0]] + xs[1..];
      if (key(xs[0]) in ids) == keep then
        var r := [xs[0]] + rest;
        assert r[1..] == rest;
        r
      else rest
  }

  /** The identifiers collected at lines 171-175 and 194-198: the `file_id` values of
      every node of `nodes2` that has `properties` with a `file_id` list. `files`
      entries of `nodes2` are not consulted. */
  function EvidenceIds(nodes2: seq<Node>): (r: set<FileId>)
    ensures forall id :: id in r <==>
              exists k :: 0 <= k < |nodes2| && HasFileIds(nodes2[k]) && id in nodes2[k].properties.value.fileId.value
  {
    if |nodes2| == 0 then {}
    else
      var init := nodes2[..|nodes2| - 1];
      var last := nodes2[|nodes2| - 1];
      var rest := EvidenceIds(init);
      assert forall k :: 0 <= k < |init| ==> init[k] == nodes2[k];
      rest + if HasFileIds(last) then set id | id in last.properties.value.fileId.value else {}
  }

  predicate HasFileIds(n: Node) {
    n.properties.Some? && n.properties.value.fileId.Some?
  }

  function FileIdOf(f: FileRecord): FileId {
    f.fileId
  }

  function Identity(id: FileId): FileId {
    id
  }

  /** One node of `nodes1` after lines 179-186 (or 202-209): a node without
      `properties` is untouched; otherwise each of `file_id` and `files` that is
      present is filtered, and nothing else changes. */
  function Prune(n: Node, ids: set<FileId>, keep: bool): (r: Node)
    ensures PrunedFrom(r, n, ids, keep)
  {
    match n.properties
    case None => n
    case Some(p) =>
      var fileId := match p.fileId
        case None => None
        case Some(xs) => Some(Select(xs, Identity, ids, keep));
      var files := match p.files
        case None => None
        case Some(fs) => Some(Select(fs, FileIdOf, ids, keep));
      n.(properties := Some(p.(fileId := fileId, files := files)))
  }

  /** `ys` is the order-preserving filter of `xs` by `key(x) in ids == keep`: a
      subsequence holding every kept entry exactly as often as `xs` does, and no
      other entry. */
  ghost predicate FilteredFrom<T(!new)>(ys: seq<T>, xs: seq<T>, key: T -> FileId, ids: set<FileId>, keep: bool) {
    && IsSubseq(ys, xs)
    && forall x :: multiset(ys)[x] == if (key(x) in ids) == keep then multiset(xs)[x] else 0
  }

  /** `after` is `before` with its evidence lists filtered by membership in `ids`
      and nothing else changed. */
  ghost predicate PrunedFrom(after: Node, before: Node, ids: set<FileId>, keep: bool) {
    && after.id == before.id
    && after.fields == before.fields
    && after.properties.Some? == before.properties.Some?
    && (before.properties.None? ==> after == before)
    && (before.properties.Some? ==>
          var p := before.properties.value;
          var q := after.properties.value;
          && q.others == p.others
          && q.fileId.Some? == p.fileId.Some?
          && q.files.Some? == p.files.Some?
          && (p.fileId.Some? ==> FilteredFrom(q.fileId.value, p.fileId.value, Identity, ids, keep))
          && (p.files.Some? ==> FilteredFrom(q.files.value, p.files.value, FileIdOf, ids, keep)))
  }

  /** Apply `Prune` to every node. */
  function PruneAll(nodes: seq<Node>, ids: set<FileId>, keep: bool): (r: seq<Node>)
    ensures |r| == |nodes|
    ensures forall i :: 0 <= i < |nodes| ==> r[i] == Prune(nodes[i], ids, keep)
  {
    if |nodes| == 0 then [] else [Prune(nodes[0], ids, keep)] + PruneAll(nodes[1..], ids, keep)
  }

  /** `diff_nodes`: same nodes, same order, evidence filtered down to the files that
      `nodes2` does not mention. */
  function DiffNodes(nodes1: seq<Node>, nodes2: seq<Node>): (r: seq<Node>)
    ensures |r| == |nodes1|
    ensures forall i :: 0 <= i < |r| ==> PrunedFrom(r[i], nodes1[i], EvidenceIds(nodes2), false)
  {
    PruneAll(nodes1, EvidenceIds(nodes2), false)
  }

  /** `intersect_nodes`: same nodes, same order, evidence filtered down to the files
      that `nodes2` mentions. */
  function IntersectNodes(nodes1: seq<Node>, nodes2: seq<Node>): (r: seq<Node>)
    ensures |r| == |nodes1|
    ensures forall i :: 0 <= i < |r| ==> PrunedFrom(r[i], nodes1[i], EvidenceIds(nodes2), true)
  {
    PruneAll(nodes1, EvidenceIds(nodes2), true)
  }

  /** Intersect keeps exactly what diff drops: the two filtered lists together hold
      every entry of the original list, each as often as before. */
  lemma SelectPartition<T(!new)>(xs: seq<T>, key: T -> FileId, ids: set<FileId>)
    ensures multiset(Select(xs, key, ids, true)) + multiset(Select(xs, key, ids, false)) == multiset(xs)
  {
    var a := Select(xs, key, ids, true);
    var b := Select(xs, key, ids, false);
    forall x ensures (multiset(a) + multiset(b))[x] == multiset(xs)[x] {
      assert multiset(a)[x] == if key(x) in ids then multiset(xs)[x] else 0;
      assert multiset(b)[x] == if key(x) !in ids then multiset(xs)[x] else 0;
    }
  }

  /** Filtering a second time by the same identifiers changes nothing. */
  lemma {:induction false} SelectIdempotent<T(!new)>(xs: seq<T>, key: T -> FileId, ids: set<FileId>, keep: bool)
    ensures Select(Select(xs, key, ids, keep), key, ids, keep) == Select(xs, key, ids, keep)
    decreases |xs|
  {
    if |xs| > 0 {
      SelectIdempotent(xs[1..], key, ids, keep);
      var rest := Select(xs[1..], key, ids, keep);
      if (key(xs[0]) in ids) == keep {
        assert ([xs[0]] + rest)[1..] == rest;
      }
    }
  }

  /** `diff_nodes` and `intersect_nodes` with the same `nodes2` split every evidence
      list of `nodes1` into two parts that together hold every entry as often as
      the original list does. */
  lemma DiffIntersectPartition(nodes1: seq<Node>, nodes2: seq<Node>, i: nat)
    requires i < |nodes1| && HasFileIds(nodes1[i])
    ensures var kept := IntersectNodes(nodes1, nodes2)[i].properties.value.fileId.value;
            var dropped := DiffNodes(nodes1, nodes2)[i].properties.value.fileId.value;
            multiset(kept) + multiset(dropped) == multiset(nodes1[i].properties.value.fileId.value)
  {
    SelectPartition(nodes1[i].properties.value.fileId.value, Identity, EvidenceIds(nodes2));
  }

  /** The same for the `files` lists. */
  lemma DiffIntersectPartitionFiles(nodes1: seq<Node>, nodes2: seq<Node>, i: nat)
    requires i < |nodes1| && nodes1[i].properties.Some? && nodes1[i].properties.value.files.Some?
    ensures var kept := IntersectNodes(nodes1, nodes2)[i].properties.value.files.value;
            var dropped := DiffNodes(nodes1, nodes2)[i].properties.value.files.value;
            multiset(kept) + multiset(dropped) == multiset(nodes1[i].properties.value.files.value)
  {
    SelectPartition(nodes1[i].properties.value.files.value, FileIdOf, EvidenceIds(nodes2));
  }

  lemma PruneIdempotent(n: Node, ids: set<FileId>, keep: bool)
    ensures Prune(Prune(n, ids, keep), ids, keep) == Prune(n, ids, keep)
  {
    if n.properties.Some? {
      var p := n.properties.value;
      if p.fileId.Some? {
        SelectIdempotent(p.fileId.value, Identity, ids, keep);
      }
      if p.files.Some? {
        SelectIdempotent(p.files.value, FileIdOf, ids, keep);
      }
    }
  }

  /** Applying `diff_nodes` twice with the same `nodes2` is applying it once. */
  lemma DiffIdempotent(nodes1: seq<Node>, nodes2: seq<Node>)
    ensures DiffNodes(DiffNodes(nodes1, nodes2), nodes2) == DiffNodes(nodes1, nodes2)
  {
    var once := DiffNodes(nodes1, nodes2);
    forall i | 0 <= i < |nodes1| ensures DiffNodes(once, nodes2)[i] == once[i] {
      PruneIdempotent(nodes1[i], EvidenceIds(nodes2), false);
    }
  }

  /** Applying `intersect_nodes` twice with the same `nodes2` is applying it once. */
  lemma IntersectIdempotent(nodes1: seq<Node>, nodes2: seq<Node>)
    ensures IntersectNodes(IntersectNodes(nodes1, nodes2), nodes2) == IntersectNodes(nodes1, nodes2)
  {
    var once := IntersectNodes(nodes1, nodes2);
    forall i | 0 <= i < |nodes1| ensures IntersectNodes(once, nodes2)[i] == once[i] {
      PruneIdempotent(nodes1[i], EvidenceIds(nodes2), true);
    }
  }

  /** The example of the intersection: evidence [10, 20, 30] against a right-hand
      answer mentioning files 20 and 30 keeps [20, 30]. */
  lemma IntersectExample(n: Node, m: Node)
    requires n.properties == Some(Properties(Some([10, 20, 30]), None, map[]))
    requires m.properties == Some(Properties(Some([20, 30]), None, map[]))
    ensures IntersectNodes([n], [m])[0].properties.value.fileId == Some([20, 30])
  {
    EvidenceOfOne(m);
    SelectExample();
    assert IntersectNodes([n], [m])[0] == Prune(n, {20, 30}, true);
  }

  lemma EvidenceOfOne(m: Node)
    requires m.properties == Some(Properties(Some([20, 30]), None, map[]))
    ensures EvidenceIds([m]) == {20, 30}
  {
    forall id ensures id in EvidenceIds([m]) <==> id in {20, 30} {
      if id in {20, 30} {
        assert [m][0] == m;
        assert id in m.properties.value.fileId.value;
      }
    }
  }

  lemma SelectExample()
    ensures Select([10, 20, 30], Identity, {20, 30}, true) == [20, 30]
  {
    var xs: seq<FileId> := [10, 20, 30];
    assert xs[1..] == [20, 30];
    assert xs[1..][1..] == [30];
    assert xs[1..][1..][1..] == [];
    assert Select([30], Identity, {20, 30}, true) == [30];
    assert Select([20, 30], Identity, {20, 30}, true) == [20, 30];
  }
}
