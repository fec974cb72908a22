/** Moving tree nodes between metadata databases: the sender emits the nodes its records need, the
    receiver merges them into its own tree and keeps a map from sender ids to its own. */
module MetadataMerge {
  import opened Vlenc
  import opened NodeBuffers

  const NAME_ATTR: nat := 8
  const NUM_BOOT: nat := 12

  // A database node; its id is its index. The parent is NO_ID for children of the root.
  datatype DbNode = DbNode(attr: nat, parent: nat, typ: nat, data: seq<Byte>)

  type Nodes = seq<DbNode>

  function TypeNode(t: Byte): DbNode {
    DbNode(9, NO_ID, 8, [t, 0, 0, 0])
  }

  /** The nodes every database starts with: the value types and the attributes describing attributes. */
  function BootNodes(): Nodes {
    [ TypeNode(1), TypeNode(2), TypeNode(3), TypeNode(4), TypeNode(5), TypeNode(6), TypeNode(7), TypeNode(8),
      DbNode(8, 3, 4, AttrName('n' as int)), DbNode(8, 7, 4, AttrName('t' as int)), DbNode(8, 1, 4, AttrName('p' as int)),
      TypeNode(9) ]
  }

  // "cali.attribute.name", "cali.attribute.type" and "cali.attribute.prop" differ from their 16th character on.
  function AttrName(c: nat): seq<Byte>
    requires c < 128
  {
    if c == 'n' as int then [99, 97, 108, 105, 46, 97, 116, 116, 114, 105, 98, 117, 116, 101, 46, 110, 97, 109, 101]
    else if c == 't' as int then [99, 97, 108, 105, 46, 97, 116, 116, 114, 105, 98, 117, 116, 101, 46, 116, 121, 112, 101]
    else [99, 97, 108, 105, 46, 97, 116, 116, 114, 105, 98, 117, 116, 101, 46, 112, 114, 111, 112]
  }

  /** Node i was created after its attribute and its parent; attributes are attribute nodes. */
  predicate NodeOk(nodes: Nodes, i: nat)
    requires i < |nodes|
  {
    && nodes[i].attr < i && nodes[nodes[i].attr].attr == NAME_ATTR
    && (nodes[i].parent == NO_ID || nodes[i].parent < i)
    && 0 < nodes[i].typ <= MAX_TYPE && |nodes[i].data| < U64
  }

  /** A database: the bootstrap nodes, then nodes that refer to earlier ones, no two siblings alike. */
  ghost predicate WellFormed(nodes: Nodes) {
    && NUM_BOOT <= |nodes| <= U64 / 2
    && nodes[..NUM_BOOT] == BootNodes()
    && (forall i: nat | NUM_BOOT <= i < |nodes| :: NodeOk(nodes, i))
    && (forall i, j | 0 <= i < |nodes| && 0 <= j < |nodes| && nodes[i] == nodes[j] :: i == j)
  }

  lemma BootFacts(nodes: Nodes, i: nat)
    requires WellFormed(nodes) && i < NUM_BOOT
    ensures nodes[i] == BootNodes()[i]
    ensures nodes[i].attr < NUM_BOOT && (nodes[i].parent == NO_ID || nodes[i].parent < i)
    ensures nodes[i].attr == NAME_ATTR <==> i == 8 || i == 9 || i == 10
    ensures 0 < nodes[i].typ <= MAX_TYPE && |nodes[i].data| < U64
    ensures nodes[nodes[i].attr].attr == NAME_ATTR
  {
    assert nodes[i] == nodes[..NUM_BOOT][i];
    var a := nodes[i].attr;
    assert a == 8 || a == 9;
    assert nodes[a] == nodes[..NUM_BOOT][a];
  }

  // --- Meaning of a node, independent of ids

  /** The bootstrap node with a given id, or a child of one node, for the attribute given by another. */
  datatype Meaning = Top | Boot(id: nat) | Child(up: Meaning, attr: Meaning, typ: nat, data: seq<Byte>)

  function MeaningOf(nodes: Nodes, i: nat): Meaning
    requires WellFormed(nodes) && i < |nodes|
    decreases i
  {
    if i < NUM_BOOT then Boot(i)
    else
      assert NodeOk(nodes, i);
      Child(if nodes[i].parent == NO_ID then Top else MeaningOf(nodes, nodes[i].parent),
            MeaningOf(nodes, nodes[i].attr), nodes[i].typ, nodes[i].data)
  }

  ghost function MeaningOfParent(nodes: Nodes, p: nat): Meaning
    requires WellFormed(nodes) && (p == NO_ID || p < |nodes|)
  {
    if p == NO_ID then Top else MeaningOf(nodes, p)
  }

  /** Different nodes of a database never mean the same. */
  lemma {:induction false} MeaningInjective(nodes: Nodes, i: nat, j: nat)
    requires WellFormed(nodes) && i < |nodes| && j < |nodes| && MeaningOf(nodes, i) == MeaningOf(nodes, j)
    ensures i == j
    decreases i
  {
    if i >= NUM_BOOT {
      assert NodeOk(nodes, i) && NodeOk(nodes, j);
      MeaningInjective(nodes, nodes[i].attr, nodes[j].attr);
      if nodes[i].parent != NO_ID && nodes[j].parent != NO_ID {
        MeaningInjective(nodes, nodes[i].parent, nodes[j].parent);
      } else {
        MeaningNotTop(nodes, nodes[i].parent);
        MeaningNotTop(nodes, nodes[j].parent);
      }
      assert nodes[i] == nodes[j];
    }
  }

  lemma MeaningNotTop(nodes: Nodes, i: nat)
    requires WellFormed(nodes)
    ensures i < |nodes| ==> MeaningOf(nodes, i) != Top
  {}

  /** Growing the database does not change what existing nodes mean. */
  lemma {:induction false} MeaningStable(nodes: Nodes, more: Nodes, i: nat)
    requires WellFormed(nodes) && WellFormed(more) && nodes <= more && i < |nodes|
    ensures MeaningOf(nodes, i) == MeaningOf(more, i)
    decreases i
  {
    if i >= NUM_BOOT {
      assert NodeOk(nodes, i);
      MeaningStable(nodes, more, nodes[i].attr);
      if nodes[i].parent != NO_ID { MeaningStable(nodes, more, nodes[i].parent); }
    }
  }

  // --- Merging one node

  type IdMap = map<nat, nat>

  function MapId(id: nat, idmap: IdMap): nat {
    if id in idmap then idmap[id] else id
  }

  /** The sender's node i as the receiver would store it. */
  function Translated(n: NodeInfo, idmap: IdMap): DbNode {
    DbNode(MapId(n.attr, idmap), MapId(n.parent, idmap), n.typ, n.data)
  }

  function InfoOf(nodes: Nodes, i: nat): NodeInfo
    requires i < |nodes|
  {
    NodeInfo(i, nodes[i].attr, nodes[i].parent, nodes[i].typ, nodes[i].data)
  }

  /** Under the id map, sender node i and receiver node j = map(i) mean the same. */
  ghost predicate Agrees(from: Nodes, to: Nodes, idmap: IdMap, i: nat)
    requires WellFormed(from) && WellFormed(to)
  {
    i < |from| && MapId(i, idmap) < |to| && MeaningOf(to, MapId(i, idmap)) == MeaningOf(from, i)
  }

  /** The id map's keys are not bootstrap ids, the root maps to itself, and every node sent agrees. */
  ghost predicate MapOk(from: Nodes, to: Nodes, idmap: IdMap, sent: seq<nat>) {
    && WellFormed(from) && WellFormed(to)
    && (forall k | k in idmap :: NUM_BOOT <= k < |from| && k in sent)
    && (forall i | i in sent :: Agrees(from, to, idmap, i))
  }

  /** Attribute and parent of node i were sent before it, where they are not bootstrap nodes themselves. */
  predicate Ready(from: Nodes, sent: seq<nat>, i: nat)
    requires i < |from|
  {
    && (from[i].attr in sent || from[i].attr < NUM_BOOT)
    && (from[i].parent in sent || from[i].parent == NO_ID || from[i].parent < NUM_BOOT)
  }

  // Sender ids that are ready translate to receiver ids that mean the same.
  lemma ReadyAgrees(from: Nodes, to: Nodes, idmap: IdMap, sent: seq<nat>, i: nat)
    requires MapOk(from, to, idmap, sent) && i < |from| && (i in sent || i < NUM_BOOT)
    ensures Agrees(from, to, idmap, i)
  {
    if i !in sent { assert MapId(i, idmap) == i; }
  }

  // A translated attribute is an attribute on the receiving side too.
  lemma AttributeAgrees(from: Nodes, to: Nodes, idmap: IdMap, a: nat)
    requires WellFormed(from) && WellFormed(to) && Agrees(from, to, idmap, a) && from[a].attr == NAME_ATTR
    ensures to[MapId(a, idmap)].attr == NAME_ATTR
  {
    var b := MapId(a, idmap);
    if a < NUM_BOOT {
      BootFacts(from, a);
      BootFacts(to, b);
    } else {
      assert MeaningOf(from, a).Child? && b >= NUM_BOOT;
      assert NodeOk(from, a);
      assert NodeOk(to, b);
      assert MeaningOf(from, from[a].attr) == Boot(NAME_ATTR);
      assert MeaningOf(to, to[b].attr) == Boot(NAME_ATTR);
    }
  }

  lemma ReferencesAgree(from: Nodes, to: Nodes, idmap: IdMap, sent: seq<nat>, i: nat)
    requires MapOk(from, to, idmap, sent) && i < |from| && Ready(from, sent, i)
    ensures var t := Translated(InfoOf(from, i), idmap);
            && t.attr < |to| && to[t.attr].attr == NAME_ATTR && from[i].attr < |from|
            && MeaningOf(to, t.attr) == MeaningOf(from, from[i].attr)
            && (t.parent == NO_ID || t.parent < |to|) && (from[i].parent == NO_ID || from[i].parent < |from|)
            && MeaningOfParent(to, t.parent) == MeaningOfParent(from, from[i].parent)
            && 0 < t.typ <= MAX_TYPE && |t.data| < U64
  {
    if i < NUM_BOOT { BootFacts(from, i); } else { assert NodeOk(from, i); }
    ReadyAgrees(from, to, idmap, sent, from[i].attr);
    AttributeAgrees(from, to, idmap, from[i].attr);
    if from[i].parent != NO_ID {
      ReadyAgrees(from, to, idmap, sent, from[i].parent);
    }
  }

  // A bootstrap node finds its own counterpart.
  lemma BootMerges(from: Nodes, to: Nodes, idmap: IdMap, sent: seq<nat>, i: nat)
    requires MapOk(from, to, idmap, sent) && i < NUM_BOOT
    ensures to[i] == Translated(InfoOf(from, i), idmap)
  {
    BootFacts(from, i);
    BootFacts(to, i);
    assert NO_ID !in idmap;
  }

  // If the translated node already exists, it means the same as the sender's node.
  lemma FoundAgrees(from: Nodes, to: Nodes, idmap: IdMap, sent: seq<nat>, i: nat, j: nat)
    requires MapOk(from, to, idmap, sent) && i < |from| && Ready(from, sent, i)
    requires j < |to| && to[j] == Translated(InfoOf(from, i), idmap)
    ensures MeaningOf(to, j) == MeaningOf(from, i)
    ensures i < NUM_BOOT ==> j == i
  {
    ReferencesAgree(from, to, idmap, sent, i);
    if i < NUM_BOOT {
      BootMerges(from, to, idmap, sent, i);
    } else if j < NUM_BOOT {
      // would be a duplicate of a bootstrap node on the sender's side
      BootFacts(to, j);
      BootFacts(from, j);
      assert NodeOk(from, i);
      assert MeaningOf(from, from[i].attr) == Boot(to[j].attr);
      assert from[i].attr == from[j].attr;
      MeaningNotTop(from, from[i].parent);
      assert false;
    } else {
      assert NodeOk(from, i) && NodeOk(to, j);
    }
  }

  /** Merging the next node when it is already there. */
  lemma MergeFound(from: Nodes, to: Nodes, idmap: IdMap, sent: seq<nat>, i: nat, j: nat)
    requires MapOk(from, to, idmap, sent) && i < |from| && Ready(from, sent, i) && i !in sent
    requires j < |to| && to[j] == Translated(InfoOf(from, i), idmap)
    ensures MapOk(from, to, if i == j then idmap else idmap[i := j], sent + [i])
  {
    FoundAgrees(from, to, idmap, sent, i, j);
    var idmap' := if i == j then idmap else idmap[i := j];
    assert i !in idmap;
    forall k | k in sent + [i]
      ensures Agrees(from, to, idmap', k)
    {
      if k != i { assert Agrees(from, to, idmap, k); }
    }
  }

  lemma GrownWellFormed(to: Nodes, t: DbNode)
    requires WellFormed(to) && |to| < U64 / 2 && t !in to
    requires t.attr < |to| && to[t.attr].attr == NAME_ATTR && (t.parent == NO_ID || t.parent < |to|)
    requires 0 < t.typ <= MAX_TYPE && |t.data| < U64
    ensures WellFormed(to + [t])
  {
    var more := to + [t];
    assert more[..NUM_BOOT] == to[..NUM_BOOT];
    forall i: nat | NUM_BOOT <= i < |more|
      ensures NodeOk(more, i)
    {
      if i < |to| { assert NodeOk(to, i); }
    }
  }

  /** Merging the next node when it is new. */
  lemma MergeNew(from: Nodes, to: Nodes, idmap: IdMap, sent: seq<nat>, i: nat)
    requires MapOk(from, to, idmap, sent) && i < |from| && Ready(from, sent, i) && i !in sent && |to| < U64 / 2
    requires Translated(InfoOf(from, i), idmap) !in to
    ensures var t, j := Translated(InfoOf(from, i), idmap), |to|;
            MapOk(from, to + [t], if i == j then idmap else idmap[i := j], sent + [i])
  {
    var t, j := Translated(InfoOf(from, i), idmap), |to|;
    ReferencesAgree(from, to, idmap, sent, i);
    if i < NUM_BOOT { BootMerges(from, to, idmap, sent, i); }
    GrownWellFormed(to, t);
    var more := to + [t];
    assert NodeOk(from, i) && NodeOk(more, j);
    MeaningStable(to, more, t.attr);
    if t.parent != NO_ID { MeaningStable(to, more, t.parent); }
    assert MeaningOf(more, j) == MeaningOf(from, i);
    var idmap' := if i == j then idmap else idmap[i := j];
    assert i !in idmap;
    forall k | k in sent + [i]
      ensures Agrees(from, more, idmap', k)
    {
      if k != i {
        assert Agrees(from, to, idmap, k);
        MeaningStable(to, more, MapId(k, idmap));
      }
    }
  }

  // --- The sender: emitting nodes

  /** The nodes emitted so far: nodes of the database, each once, each after its attribute and its parent. */
  ghost predicate Emitted(from: Nodes, ids: seq<nat>, written: set<nat>) {
    && (forall k: nat | k < |ids| :: ids[k] < |from|)
    && (forall i :: i in written <==> i in ids)
    && (forall j, k | 0 <= j < k < |ids| :: ids[j] != ids[k])
    && (forall k: nat | k < |ids| :: Ready(from, ids[..k], ids[k]))
  }

  ghost predicate Describes(from: Nodes, ids: seq<nat>, infos: seq<NodeInfo>) {
    |infos| == |ids| && forall k: nat | k < |ids| :: ids[k] < |from| && infos[k] == InfoOf(from, ids[k])
  }

  lemma EmitNext(from: Nodes, ids: seq<nat>, written: set<nat>, i: nat)
    requires Emitted(from, ids, written) && i < |from| && i !in written && Ready(from, ids, i)
    ensures Emitted(from, ids + [i], written + {i})
  {
    hide Ready;
    var more := ids + [i];
    forall k: nat | k < |more|
      ensures more[k] < |from| && Ready(from, more[..k], more[k])
    {
      assert more[..k] == ids[..k];
      if k == |ids| { assert ids[..k] == ids; }
    }
    forall x
      ensures x in written + {i} <==> x in more
    {
      assert more[|ids|] == i;
      if x in ids { var k :| 0 <= k < |ids| && ids[k] == x; assert more[k] == x; }
    }
  }

  /** Emits the nodes on the path to node i (nothing for the root), attribute and parent first. */
  method AppendPath(from: Nodes, i: nat, buf: NodeBuffer, written0: set<nat>, ghost ids0: seq<nat>)
    returns (written: set<nat>, ghost ids: seq<nat>)
    requires WellFormed(from) && (i == NO_ID || i < |from|)
    requires buf.Valid() && Describes(from, ids0, buf.infos) && Emitted(from, ids0, written0)
    modifies buf, buf.buffer
    ensures buf.Valid() && Describes(from, ids, buf.infos) && Emitted(from, ids, written)
    ensures written0 <= written && (i != NO_ID ==> i in written)
    ensures buf.buffer == old(buf.buffer) || fresh(buf.buffer)
    decreases if i == NO_ID then 0 else i + 1
  {
    hide Emitted, NodeStream, BootNodes;
    written, ids := written0, ids0;
    if i == NO_ID || i in written {
      return;
    }
    PathFacts(from, i);
    if from[i].attr < i {
      written, ids := AppendPath(from, from[i].attr, buf, written, ids);
    }
    written, ids := AppendPath(from, from[i].parent, buf, written, ids);
    if i in written {
      return;
    }
    WrittenReady(from, ids, written, i);
    EmitNext(from, ids, written, i);
    buf.Append(InfoOf(from, i));
    written, ids := written + {i}, ids + [i];
  }

  lemma PathFacts(from: Nodes, i: nat)
    requires WellFormed(from) && i < |from|
    ensures from[i].attr < |from| && (from[i].parent == NO_ID || from[i].parent < i)
    ensures i >= NUM_BOOT ==> from[i].attr < i
    ensures from[i].attr >= i ==> from[i].attr < NUM_BOOT
    ensures InfoOf(from, i).Valid()
  {
    if i < NUM_BOOT { BootFacts(from, i); } else { assert NodeOk(from, i); }
  }

  lemma WrittenReady(from: Nodes, ids: seq<nat>, written: set<nat>, i: nat)
    requires WellFormed(from) && Emitted(from, ids, written) && i < |from|
    requires from[i].attr in written || from[i].attr < NUM_BOOT
    requires from[i].parent in written || from[i].parent == NO_ID
    ensures Ready(from, ids, i)
  {}

  // --- The receiver

  ghost predicate KidsOk(nodes: Nodes, kids: map<nat, seq<nat>>) {
    && NO_ID in kids
    && (forall i: nat | i < |nodes| :: i in kids && nodes[i].parent in kids && i in kids[nodes[i].parent])
    && (forall p | p in kids :: p == NO_ID || p < |nodes|)
    && (forall p | p in kids :: forall n: nat | n < |kids[p]| :: kids[p][n] < |nodes|)
  }

  lemma KidsGrow(nodes: Nodes, kids: map<nat, seq<nat>>, node: DbNode)
    requires KidsOk(nodes, kids) && node.parent in kids && |nodes| != NO_ID
    ensures KidsOk(nodes + [node], kids[node.parent := [|nodes|] + kids[node.parent]][|nodes| := []])
  {
    var more, r := nodes + [node], |nodes|;
    var kids' := kids[node.parent := [r] + kids[node.parent]][r := []];
    forall i: nat | i < |more|
      ensures i in kids' && more[i].parent in kids' && i in kids'[more[i].parent]
    {
      if i == r {
        assert kids'[node.parent][0] == r;
      } else if more[i].parent == node.parent {
        var n :| 0 <= n < |kids[node.parent]| && kids[node.parent][n] == i;
        assert kids'[node.parent][n + 1] == i;
      }
    }
  }

  class MetadataDB {
    var nodes: Nodes
    var kids: map<nat, seq<nat>>      // sibling lists by parent, newest first

    ghost predicate Valid()
      reads this
    {
      WellFormed(nodes) && KidsOk(nodes, kids)
    }

    /** Finds the child of a node with the given label, or creates it; -1 if the node info is invalid. */
    method MergeNodeInfo(nodeId: nat, node: DbNode) returns (r: int)
      requires Valid() && |nodes| < U64 / 2 && node.typ <= MAX_TYPE && |node.data| < U64
      modifies this
      ensures Valid() && old(nodes) <= nodes && |nodes| <= |old(nodes)| + 1
      ensures r == -1 <==> nodeId == NO_ID || node.attr >= |old(nodes)| || old(nodes)[node.attr].attr != NAME_ATTR
                           || node.typ == 0 || (node.parent != NO_ID && node.parent >= |old(nodes)|)
      ensures r == -1 ==> nodes == old(nodes)
      ensures r != -1 ==> 0 <= r < |nodes| && nodes[r] == node
      ensures r != -1 ==> nodes == if node in old(nodes) then old(nodes) else old(nodes) + [node]
    {
      hide BootNodes;
      if node.attr >= |nodes| || nodes[node.attr].attr != NAME_ATTR || nodeId == NO_ID || node.typ == 0 {
        return -1;
      }
      if node.parent != NO_ID && node.parent >= |nodes| {
        return -1;
      }
      var list := kids[node.parent];
      var n := 0;
      while n < |list| && nodes[list[n]] != node
        invariant 0 <= n <= |list|
        invariant forall m: nat | m < n :: nodes[list[m]] != node
      {
        n := n + 1;
      }
      if n < |list| {
        return list[n];
      }
      assert node !in nodes;
      GrownWellFormed(nodes, node);
      KidsGrow(nodes, kids, node);
      r := |nodes|;
      kids := kids[node.parent := [r] + list][r := []];
      nodes := nodes + [node];
    }

    constructor ()
      ensures Valid() && nodes == BootNodes()
    {
      nodes := BootNodes();
      kids := map[NO_ID := [11, 7, 6, 5, 4, 3, 2, 1, 0], 0 := [], 1 := [10], 2 := [], 3 := [8], 4 := [], 5 := [],
                  6 := [], 7 := [9], 8 := [], 9 := [], 10 := [], 11 := []];
      new;
      BootDatabase(nodes, kids);
    }

    /** Merges a node from a stream, translating its attribute and parent, and records its new id. */
    method MergeNode(info: NodeInfo, idmap: IdMap, ghost from: Nodes, ghost sent: seq<nat>) returns (r: IdMap)
      requires Valid() && |nodes| < U64 / 2 && MapOk(from, nodes, idmap, sent)
      requires info.id < |from| && info == InfoOf(from, info.id) && info.id !in sent && Ready(from, sent, info.id)
      modifies this
      ensures Valid() && old(nodes) <= nodes && |nodes| <= |old(nodes)| + 1
      ensures MapOk(from, nodes, r, sent + [info.id])
    {
      hide BootNodes, WellFormed, KidsOk, Ready, Agrees;
      ReferencesAgree(from, nodes, idmap, sent, info.id);
      SenderBound(from, info.id);
      var node := DbNode(MapId(info.attr, idmap), MapId(info.parent, idmap), info.typ, info.data);
      ghost var to := nodes;
      var id := MergeNodeInfo(info.id, node);
      if node in to {
        MergeFound(from, to, idmap, sent, info.id, id);
      } else {
        MergeNew(from, to, idmap, sent, info.id);
      }
      r := if info.id != id then idmap[info.id := id] else idmap;
    }
  }

  lemma SenderBound(from: Nodes, i: nat)
    requires WellFormed(from) && i < |from|
    ensures i != NO_ID
  {}

  lemma BootDatabase(nodes: Nodes, kids: map<nat, seq<nat>>)
    requires nodes == BootNodes()
    requires kids == map[NO_ID := [11, 7, 6, 5, 4, 3, 2, 1, 0], 0 := [], 1 := [10], 2 := [], 3 := [8], 4 := [], 5 := [],
                         6 := [], 7 := [9], 8 := [], 9 := [], 10 := [], 11 := []]
    ensures WellFormed(nodes) && KidsOk(nodes, kids)
  {
    hide WellFormed;
    BootWellFormed();
    assert kids[NO_ID][8] == 0 && kids[NO_ID][7] == 1 && kids[NO_ID][6] == 2 && kids[NO_ID][5] == 3 && kids[NO_ID][4] == 4;
    assert kids[NO_ID][3] == 5 && kids[NO_ID][2] == 6 && kids[NO_ID][1] == 7 && kids[NO_ID][0] == 11;
    assert kids[3][0] == 8 && kids[7][0] == 9 && kids[1][0] == 10;
  }

  lemma BootWellFormed()
    ensures WellFormed(BootNodes())
  {
    BootDistinct();
    assert BootNodes()[..12] == BootNodes();
  }

  lemma BootDistinct()
    ensures var b := BootNodes(); forall i, j | 0 <= i < 12 && 0 <= j < 12 && b[i] == b[j] :: i == j
  {
    var b := BootNodes();
    assert forall i | 0 <= i < 8 :: b[i].data[0] == i + 1;
    assert b[11].data[0] == 9 && b[8].parent == 3 && b[9].parent == 7 && b[10].parent == 1;
  }

  /** Sends the nodes that the given ids need from one database to another, through a node buffer. Every
      one of them then means on the receiving side, under the resulting id map, what it meant on the
      sending side; nodes the receiver already had are unchanged and it has no duplicate siblings. */
  method Transfer(from: Nodes, wanted: seq<nat>, to: MetadataDB) returns (idmap: IdMap)
    requires WellFormed(from) && forall k: nat | k < |wanted| :: wanted[k] < |from|
    requires to.Valid() && |to.nodes| + |from| <= U64 / 2
    modifies to
    ensures to.Valid() && old(to.nodes) <= to.nodes
    ensures forall k: nat | k < |wanted| :: Agrees(from, to.nodes, idmap, wanted[k])
  {
    hide BootNodes, WellFormed, Agrees, NodeStream, KidsOk, Ready, EmittedIn, MapOk;
    var buf, ids := Emit(from, wanted);
    var infos := buf.ReadAll();
    EmittedCount(from, ids);
    idmap := map[];
    NothingSent(from, to.nodes);
    assert ids[..0] == [];
    for k := 0 to |infos|
      invariant to.Valid() && old(to.nodes) <= to.nodes && |to.nodes| <= |old(to.nodes)| + k
      invariant MapOk(from, to.nodes, idmap, ids[..k])
    {
      EmittedAt(from, ids, k);
      idmap := to.MergeNode(infos[k], idmap, from, ids[..k]);
      assert ids[..k + 1] == ids[..k] + [ids[k]];
    }
    assert ids[..|infos|] == ids;
    AllAgree(from, to.nodes, idmap, ids);
  }

  lemma NothingSent(from: Nodes, to: Nodes)
    requires WellFormed(from) && WellFormed(to)
    ensures MapOk(from, to, map[], [])
  {}

  lemma AllAgree(from: Nodes, to: Nodes, idmap: IdMap, sent: seq<nat>)
    requires MapOk(from, to, idmap, sent)
    ensures WellFormed(from) && WellFormed(to) && forall i | i in sent :: Agrees(from, to, idmap, i)
  {}

  method Emit(from: Nodes, wanted: seq<nat>) returns (buf: NodeBuffer, ghost ids: seq<nat>)
    requires WellFormed(from) && forall k: nat | k < |wanted| :: wanted[k] < |from|
    ensures fresh(buf) && fresh(buf.buffer) && buf.Valid() && Describes(from, ids, buf.infos)
    ensures forall k: nat | k < |ids| :: ids[k] < U64 / 2
    ensures EmittedIn(from, ids) && forall k: nat | k < |wanted| :: wanted[k] in ids
  {
    hide Emitted, NodeStream, BootNodes, Ready, NodeOk;
    buf := new NodeBuffer();
    ids := [];
    var written: set<nat> := {};
    NothingEmitted(from);
    for k := 0 to |wanted|
      invariant fresh(buf) && fresh(buf.buffer) && buf.Valid() && Describes(from, ids, buf.infos)
      invariant Emitted(from, ids, written) && forall j: nat | j < k :: wanted[j] in written
    {
      written, ids := AppendPath(from, wanted[k], buf, written, ids);
    }
    WrittenAreIn(from, ids, written);
  }

  ghost predicate EmittedIn(from: Nodes, ids: seq<nat>) {
    exists written :: Emitted(from, ids, written)
  }

  lemma NothingEmitted(from: Nodes)
    ensures Emitted(from, [], {})
  {}

  lemma WrittenAreIn(from: Nodes, ids: seq<nat>, written: set<nat>)
    requires Emitted(from, ids, written)
    ensures forall i | i in written :: i in ids
  {}

  lemma EmittedAt(from: Nodes, ids: seq<nat>, k: nat)
    requires EmittedIn(from, ids) && k < |ids|
    ensures ids[k] < |from| && ids[k] !in ids[..k] && Ready(from, ids[..k], ids[k])
  {
    var written :| Emitted(from, ids, written);
  }

  // A duplicate-free list of ids is no longer than the database.
  lemma EmittedCount(from: Nodes, ids: seq<nat>)
    requires EmittedIn(from, ids)
    ensures |ids| <= |from|
  {
    var written :| Emitted(from, ids, written);
    DistinctBound(ids, |from|);
  }

  lemma {:induction false} DistinctBound(ids: seq<nat>, n: nat)
    requires (forall k: nat | k < |ids| :: ids[k] < n) && forall j, k | 0 <= j < k < |ids| :: ids[j] != ids[k]
    ensures |ids| <= n
    decreases n
  {
    if ids != [] {
      assert ids[0] < n;
      if n - 1 in ids {
        var p :| 0 <= p < |ids| && ids[p] == n - 1;
        DistinctBound(ids[..p] + ids[p + 1..], n - 1);
      } else {
        DistinctBound(ids, n - 1);
      }
    }
  }
}
