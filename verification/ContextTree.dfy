/** The context tree: a prefix tree of (attribute, value) labels in which every path exists at
    most once. Nodes live in fixed-size blocks; a node's id is its block and index. */
module ContextTrees {
  import opened Variants

  const NODES_PER_BLOCK: nat := 256
  const NUM_BLOCKS: nat := 16384

  const NAME_ATTR: Id := 8
  const TYPE_ATTR: Id := 9
  const PROP_ATTR: Id := 10

  datatype Label = Label(attr: Id, data: Variant)

  // A node pointer: null, the artificial root, or a node of the tree.
  datatype Ptr = Null | Root | At(id: Id)

  datatype Node = Node(tag: Label, parent: Ptr, next: Ptr, head: Ptr)

  type Path = seq<Label>

  /** The path without its innermost label for attribute a; unchanged if there is none. */
  function RemoveInnermost(s: Path, a: Id): Path {
    if s == [] then []
    else if s[|s| - 1].attr == a then s[..|s| - 1]
    else RemoveInnermost(s[..|s| - 1], a) + [s[|s| - 1]]
  }

  predicate Mentions(s: Path, a: Id) {
    exists i :: 0 <= i < |s| && s[i].attr == a
  }

  function WithoutAttr(s: Path, a: Id): Path {
    if s == [] then []
    else if s[|s| - 1].attr == a then WithoutAttr(s[..|s| - 1], a)
    else WithoutAttr(s[..|s| - 1], a) + [s[|s| - 1]]
  }

  // Filtering after adding one label.
  lemma WithoutSnoc(base: Path, s: Path, tag: Label, a: Id)
    ensures base + WithoutAttr(s + [tag], a) == if tag.attr == a then base + WithoutAttr(s, a)
                                                else base + WithoutAttr(s, a) + [tag]
  {
    assert (s + [tag])[..|s|] == s;
    assert base + (WithoutAttr(s, a) + [tag]) == base + WithoutAttr(s, a) + [tag];
  }

  /** It drops the labels of the attribute, one by one, and nothing else. */
  lemma {:induction false} WithoutJoin(s: Path, t: Path, a: Id)
    ensures WithoutAttr(s + t, a) == WithoutAttr(s, a) + WithoutAttr(t, a)
    ensures |s| == 1 ==> WithoutAttr(s, a) == if s[0].attr == a then [] else s
    decreases |t|
  {
    if |s| == 1 { assert s[..0] == [] && s == [s[0]]; }
    if t == [] {
      assert s + t == s;
    } else {
      WithoutJoin(s, t[..|t| - 1], a);
      assert (s + t)[..|s + t| - 1] == s + t[..|t| - 1];
    }
  }

  lemma {:induction false} WithoutAbsent(s: Path, a: Id)
    requires !Mentions(s, a)
    ensures WithoutAttr(s, a) == s && RemoveInnermost(s, a) == s
  {
    if s != [] {
      assert !Mentions(s[..|s| - 1], a);
      assert s[|s| - 1].attr != a;
      WithoutAbsent(s[..|s| - 1], a);
    }
  }

  // Dropping the label at position k, when no later label has the same attribute.
  lemma {:induction false} RemoveAt(s: Path, k: nat, a: Id)
    requires k < |s| && s[k].attr == a && !Mentions(s[k + 1..], a)
    ensures RemoveInnermost(s, a) == s[..k] + s[k + 1..]
    ensures WithoutAttr(s[k..], a) == s[k + 1..]
  {
    if k + 1 < |s| {
      var t := s[..|s| - 1];
      assert s[k + 1..][|s| - k - 2] == s[|s| - 1];
      assert t[k + 1..] == s[k + 1..][..|s| - k - 2];
      RemoveAt(t, k, a);
      assert s[k..][..|s| - k - 1] == t[k..];
      assert s[..k] + s[k + 1..] == t[..k] + t[k + 1..] + [s[|s| - 1]];
    } else {
      assert s[k..] == [s[k]] && s[k..][..0] == [];
    }
  }

  // --- The tree as a value

  type Nodes = map<Ptr, Node>

  /** `path` gives the labels on the way from the root, and no two nodes have the same. */
  ghost predicate PathsOk(nodes: Nodes, path: map<Ptr, Path>) {
    && path.Keys == nodes.Keys && Null !in nodes && Root in nodes && path[Root] == []
    && nodes[Root].parent == Null && nodes[Root].tag.attr == INV_ID
    && (forall p | p in nodes && p != Root ::
          nodes[p].parent in nodes && path[p] == path[nodes[p].parent] + [nodes[p].tag])
    && (forall p, q | p in nodes && q in nodes && path[p] == path[q] :: p == q)
  }

  /** `kids` lists each node's children in the order of its sibling list. */
  ghost predicate LinksOk(nodes: Nodes, kids: map<Ptr, seq<Ptr>>) {
    && kids.Keys == nodes.Keys
    && (forall p | p in nodes && p != Root :: nodes[p].parent in kids && p in kids[nodes[p].parent])
    && (forall p | p in kids :: nodes[p].head == First(kids[p]) && SiblingsOk(nodes, p, kids[p]))
  }

  // The nodes of l are children of p, each pointing to the next.
  ghost predicate SiblingsOk(nodes: Nodes, p: Ptr, l: seq<Ptr>) {
    && (forall n: nat | n < |l| :: l[n] in nodes && l[n] != Root && l[n] != Null && nodes[l[n]].parent == p)
    && (forall n: nat | n < |l| :: nodes[l[n]].next == First(l[n + 1..]))
  }

  function First(l: seq<Ptr>): Ptr {
    if l == [] then Null else l[0]
  }

  ghost predicate WellFormed(nodes: Nodes, kids: map<Ptr, seq<Ptr>>, path: map<Ptr, Path>) {
    PathsOk(nodes, path) && LinksOk(nodes, kids)
  }

  /** The tree after hanging a new node with the given label under p, at the head of p's children. */
  function Linked(nodes: Nodes, p: Ptr, child: Ptr, tag: Label): Nodes
    requires p in nodes
  {
    nodes[child := Node(tag, p, nodes[p].head, Null)][p := nodes[p].(head := child)]
  }

  // No existing node has the path that a missing child of p would have.
  lemma NewPathIsNew(nodes: Nodes, kids: map<Ptr, seq<Ptr>>, path: map<Ptr, Path>, p: Ptr, tag: Label)
    requires WellFormed(nodes, kids, path) && p in nodes
    requires forall q | q in kids[p] :: nodes[q].tag != tag
    ensures forall q | q in nodes :: path[q] != path[p] + [tag]
  {
    assert (path[p] + [tag])[..|path[p]|] == path[p];
    forall q | q in nodes && q != Root
      ensures path[q] != path[p] + [tag]
    {
      assert path[q][..|path[q]| - 1] == path[nodes[q].parent];
    }
  }

  lemma LinkPaths(nodes: Nodes, path: map<Ptr, Path>, p: Ptr, child: Ptr, tag: Label)
    requires PathsOk(nodes, path) && p in nodes && p in path && child !in nodes && child != Null
    requires forall q | q in path :: path[q] != path[p] + [tag]
    ensures PathsOk(Linked(nodes, p, child, tag), path[child := path[p] + [tag]])
  {}

  lemma SiblingsFrame(nodes: Nodes, nodes': Nodes, p: Ptr, l: seq<Ptr>)
    requires SiblingsOk(nodes, p, l)
    requires forall q | q in nodes :: q in nodes' && nodes'[q].parent == nodes[q].parent && nodes'[q].next == nodes[q].next
    ensures SiblingsOk(nodes', p, l)
  {}

  lemma SiblingsPush(nodes: Nodes, p: Ptr, child: Ptr, l: seq<Ptr>)
    requires SiblingsOk(nodes, p, l) && child in nodes && child != Root
    requires nodes[child].parent == p && nodes[child].next == First(l) && child != Null
    ensures SiblingsOk(nodes, p, [child] + l)
  {
    var l' := [child] + l;
    assert l'[1..] == l;
    forall n: nat | n < |l'|
      ensures l'[n] in nodes && l'[n] != Root && l'[n] != Null && nodes[l'[n]].parent == p && nodes[l'[n]].next == First(l'[n + 1..])
    {
      if n > 0 { assert l'[n] == l[n - 1] && l'[n + 1..] == l[n..]; }
    }
  }

  lemma LinkOne(nodes: Nodes, kids: map<Ptr, seq<Ptr>>, p: Ptr, child: Ptr, tag: Label, q: Ptr)
    requires p in nodes && p in kids && child !in nodes && child != Null && child != Root && child !in kids
    requires nodes[p].head == First(kids[p]) && SiblingsOk(nodes, p, kids[p])
    requires q == child || (q in kids && q in nodes && nodes[q].head == First(kids[q]) && SiblingsOk(nodes, q, kids[q]))
    ensures var nodes', l := Linked(nodes, p, child, tag), kids[p := [child] + kids[p]][child := []][q];
            nodes'[q].head == First(l) && SiblingsOk(nodes', q, l)
  {
    hide SiblingsOk;
    var nodes' := Linked(nodes, p, child, tag);
    if q == child {
      NoSiblings(nodes', child);
    } else {
      SiblingsFrame(nodes, nodes', q, kids[q]);
      if q == p { SiblingsPush(nodes', p, child, kids[p]); }
    }
  }

  lemma LinkSiblings(nodes: Nodes, kids: map<Ptr, seq<Ptr>>, p: Ptr, child: Ptr, tag: Label)
    requires LinksOk(nodes, kids) && p in nodes && child !in nodes && child != Null && child != Root
    ensures LinksOk(Linked(nodes, p, child, tag), kids[p := [child] + kids[p]][child := []])
  {
    hide SiblingsOk, First;
    var nodes' := Linked(nodes, p, child, tag);
    var kids' := kids[p := [child] + kids[p]][child := []];
    forall q | q in kids'
      ensures nodes'[q].head == First(kids'[q]) && SiblingsOk(nodes', q, kids'[q])
    {
      LinkOne(nodes, kids, p, child, tag, q);
    }
    forall q | q in nodes' && q != Root
      ensures nodes'[q].parent in kids' && q in kids'[nodes'[q].parent]
    {
      if q == child {
        assert q in [child] + kids[p];
      } else {
        assert nodes'[q].parent == nodes[q].parent && q in kids[nodes[q].parent];
      }
    }
  }

  lemma NoSiblings(nodes: Nodes, p: Ptr)
    ensures SiblingsOk(nodes, p, [])
  {}

  /** Hash-consing: two nodes are the same exactly when their paths are equal. */
  lemma SamePathSameNode(nodes: Nodes, kids: map<Ptr, seq<Ptr>>, path: map<Ptr, Path>, p: Ptr, q: Ptr)
    requires WellFormed(nodes, kids, path) && p in nodes && q in nodes
    ensures p == q <==> path[p] == path[q]
  {}

  // --- Node blocks

  /** Block b holds the nodes with ids b * 256 .. b * 256 + fill[b]; these and the root are all nodes. */
  ghost predicate BlocksOk(nodes: Nodes, fill: seq<nat>) {
    && 0 < |fill| <= NUM_BLOCKS
    && (forall b: nat | b < |fill| :: fill[b] < NODES_PER_BLOCK)
    && (forall p | p in nodes && p != Root :: p.At? && Allocated(fill, p.id))
    && (forall i: Id | Allocated(fill, i) :: At(i) in nodes)
  }

  /** The lookup of `node(id)`: block by division, index by remainder. */
  predicate Allocated(fill: seq<nat>, id: Id) {
    id / NODES_PER_BLOCK < |fill| && id % NODES_PER_BLOCK < fill[id / NODES_PER_BLOCK]
  }

  /** Number of nodes that can still be created; one index per block stays unused. */
  function Room(fill: seq<nat>): int
    requires |fill| > 0
  {
    (NUM_BLOCKS - |fill|) * (NODES_PER_BLOCK - 1) + NODES_PER_BLOCK - 1 - fill[|fill| - 1]
  }

  /** The blocks after making sure that the last one has a free index. */
  function WithFreeIndex(fill: seq<nat>): seq<nat>
    requires |fill| > 0
  {
    if fill[|fill| - 1] + 1 >= NODES_PER_BLOCK then fill + [0] else fill
  }

  function NextId(fill: seq<nat>): int
    requires |fill| > 0
  {
    (|fill| - 1) * NODES_PER_BLOCK + fill[|fill| - 1]
  }

  function TakeIndex(fill: seq<nat>): seq<nat>
    requires |fill| > 0
  {
    fill[|fill| - 1 := fill[|fill| - 1] + 1]
  }

  // Opening a new block allocates no id.
  lemma OpenBlock(nodes: Nodes, fill: seq<nat>)
    requires BlocksOk(nodes, fill) && Room(fill) > 0
    ensures var f := WithFreeIndex(fill);
            BlocksOk(nodes, f) && Room(f) == Room(fill) && f[|f| - 1] < NODES_PER_BLOCK - 1
  {
    assert forall i: Id :: Allocated(fill + [0], i) <==> Allocated(fill, i);
  }

  // Taking the next index of the last block allocates exactly its id.
  lemma AllocateNext(nodes: Nodes, nodes': Nodes, fill: seq<nat>)
    requires BlocksOk(nodes, fill) && fill[|fill| - 1] < NODES_PER_BLOCK - 1
    requires nodes'.Keys == nodes.Keys + {At(NextId(fill))}
    ensures At(NextId(fill)) !in nodes
    ensures BlocksOk(nodes', TakeIndex(fill)) && Room(TakeIndex(fill)) == Room(fill) - 1
  {
    forall i: Id
      ensures Allocated(TakeIndex(fill), i) <==> Allocated(fill, i) || i == NextId(fill)
    {}
  }

  datatype Bootstrap = Bootstrap(tag: Label, parent: Ptr)

  /** The nodes present from the start, in the order of their ids 0..11. */
  function BootstrapNodes(): seq<Bootstrap> {
    [
    Bootstrap(Label(TYPE_ATTR, Type(UsrType)), Root),
    Bootstrap(Label(TYPE_ATTR, Type(IntType)), Root),
    Bootstrap(Label(TYPE_ATTR, Type(UintType)), Root),
    Bootstrap(Label(TYPE_ATTR, Type(StringType)), Root),
    Bootstrap(Label(TYPE_ATTR, Type(AddrType)), Root),
    Bootstrap(Label(TYPE_ATTR, Type(DoubleType)), Root),
    Bootstrap(Label(TYPE_ATTR, Type(BoolType)), Root),
    Bootstrap(Label(TYPE_ATTR, Type(TypeType)), Root),
    Bootstrap(Label(NAME_ATTR, String("cali.attribute.name")), At(3)),
    Bootstrap(Label(NAME_ATTR, String("cali.attribute.type")), At(7)),
    Bootstrap(Label(NAME_ATTR, String("cali.attribute.prop")), At(1)),
    Bootstrap(Label(TYPE_ATTR, Type(PtrType)), Root)]
  }

  /** Labels are pairwise different, and every parent comes first. */
  ghost predicate Bootable(b: seq<Bootstrap>) {
    && |b| == 12
    && (forall i, j | 0 <= i < j < 12 :: b[i].tag != b[j].tag)
    && (forall i: nat | i < 12 :: b[i].parent == Root || (b[i].parent.At? && b[i].parent.id < i))
  }

  lemma BootstrapIsBootable()
    ensures Bootable(BootstrapNodes())
  {
    var a, b, c := "cali.attribute.name", "cali.attribute.type", "cali.attribute.prop";
    assert a[15] == 'n' && b[15] == 't' && c[15] == 'p';
  }

  // --- Growing the tree

  datatype Tree = Tree(nodes: Nodes, fill: seq<nat>, kids: map<Ptr, seq<Ptr>>, path: map<Ptr, Path>)

  ghost predicate Ok(t: Tree) {
    WellFormed(t.nodes, t.kids, t.path) && BlocksOk(t.nodes, t.fill)
  }

  function Capacity(t: Tree): int {
    if |t.fill| == 0 then 0 else Room(t.fill)
  }

  ghost predicate IsNew(t: Tree, p: Ptr, tag: Label) {
    p in t.nodes && p in t.path && forall q | q in t.path :: t.path[q] != t.path[p] + [tag]
  }

  /** The tree with one more node, labelled tag, as the newest child of p. */
  function Grown(t: Tree, p: Ptr, tag: Label): Tree
    requires p in t.nodes && p in t.kids && p in t.path && |t.fill| > 0
  {
    var fill := WithFreeIndex(t.fill);
    var child := NewChild(t);
    Tree(Linked(t.nodes, p, child, tag), TakeIndex(fill), t.kids[p := [child] + t.kids[p]][child := []],
         t.path[child := t.path[p] + [tag]])
  }

  function NewChild(t: Tree): Ptr
    requires |t.fill| > 0
  {
    var id := NextId(WithFreeIndex(t.fill));
    if 0 <= id < INV_ID then At(id) else Null
  }

  lemma GrownOk(t: Tree, p: Ptr, tag: Label)
    requires Ok(t) && IsNew(t, p, tag) && Capacity(t) > 0
    ensures p in t.kids && |t.fill| > 0
    ensures Ok(Grown(t, p, tag)) && Capacity(Grown(t, p, tag)) == Capacity(t) - 1
    ensures NewChild(t) !in t.nodes && NewChild(t).At?
    ensures Extends(t, Grown(t, p, tag))
  {
    hide PathsOk, SiblingsOk;
    OpenBlock(t.nodes, t.fill);
    var child := NewChild(t);
    AllocateNext(t.nodes, Linked(t.nodes, p, child, tag), WithFreeIndex(t.fill));
    LinkPaths(t.nodes, t.path, p, child, tag);
    LinkSiblings(t.nodes, t.kids, p, child, tag);
  }

  /** Existing nodes keep their label, parent and path. */
  ghost predicate Extends(t: Tree, t': Tree) {
    forall p | p in t.nodes && p in t.path ::
      && p in t'.nodes && t'.nodes[p].tag == t.nodes[p].tag && t'.nodes[p].parent == t.nodes[p].parent
      && p in t'.path && t'.path[p] == t.path[p]
  }

  lemma ExtendsItself(t: Tree)
    requires Ok(t)
    ensures Extends(t, t)
  {}

  lemma RootFacts(t: Tree)
    requires Ok(t)
    ensures Root in t.nodes && Root in t.path && t.path[Root] == [] && t.path.Keys == t.nodes.Keys && Null !in t.nodes
  {}

  lemma ExtendsFacts(t: Tree, t': Tree, p: Ptr)
    requires Extends(t, t') && p in t.nodes && p in t.path
    ensures p in t'.nodes && t'.nodes[p].tag == t.nodes[p].tag && p in t'.path && t'.path[p] == t.path[p]
  {}

  lemma ExtendsTransitive(a: Tree, b: Tree, c: Tree)
    requires Extends(a, b) && Extends(b, c)
    ensures Extends(a, c)
  {}

  lemma RootOnly(t: Tree)
    requires t == Tree(map[Root := Node(Label(INV_ID, Empty), Null, Null, Null)], [0], map[Root := []], map[Root := []])
    ensures Ok(t)
  {}

  lemma BootstrapNew(t: Tree, p: Ptr, tag: Label)
    requires Ok(t) && p in t.nodes
    requires forall q | q in t.nodes && q != Root :: t.nodes[q].tag != tag
    ensures IsNew(t, p, tag)
  {
    hide LinksOk, BlocksOk;
    forall q | q in t.path
      ensures t.path[q] != t.path[p] + [tag]
    {
      assert q != Root ==> t.path[q][|t.path[q]| - 1] == t.nodes[q].tag;
    }
  }

  /** The first n bootstrap nodes are present and no others. */
  ghost predicate Booted(t: Tree, b: seq<Bootstrap>, n: nat) {
    && n <= 12 == |b| && t.fill == [n] && Root in t.nodes
    && (forall p | p in t.nodes && p != Root :: p.At? && p.id < n)
    && (forall i: Id | i < n :: At(i) in t.nodes
          && t.nodes[At(i)].tag == b[i].tag && t.nodes[At(i)].parent == b[i].parent)
  }

  lemma BootStep(t: Tree, b: seq<Bootstrap>, n: nat)
    requires Ok(t) && Bootable(b) && Booted(t, b, n) && n < 12
    ensures IsNew(t, b[n].parent, b[n].tag)
    ensures b[n].parent in t.kids && Booted(Grown(t, b[n].parent, b[n].tag), b, n + 1)
  {
    hide IsNew, PathsOk, SiblingsOk, BlocksOk, Grown;
    BootstrapNew(t, b[n].parent, b[n].tag);
    RootFacts(t);
    BootGrows(t, b, n);
  }

  lemma BootRoom(t: Tree, b: seq<Bootstrap>, n: nat)
    requires Booted(t, b, n)
    ensures n <= 12 == |b| && Capacity(t) == NUM_BLOCKS * (NODES_PER_BLOCK - 1) - n && Capacity(t) > 0
  {
  }

  lemma BootGrows(t: Tree, b: seq<Bootstrap>, n: nat)
    requires Booted(t, b, n) && n < 12
    requires b[n].parent in t.nodes && b[n].parent in t.kids && b[n].parent in t.path && b[n].parent != At(n)
    ensures Booted(Grown(t, b[n].parent, b[n].tag), b, n + 1)
  {
    assert NewChild(t) == At(n);
    assert t.fill == [n] && WithFreeIndex(t.fill) == [n];
  }

  // --- Looking up and removing labels

  lemma HeadOfList(t: Tree, p: Ptr)
    requires Ok(t) && p in t.nodes
    ensures p in t.kids && t.nodes[p].head == First(t.kids[p]) && SiblingsOk(t.nodes, p, t.kids[p])
  {
    hide PathsOk, BlocksOk, SiblingsOk;
  }

  lemma NextInList(nodes: Nodes, p: Ptr, l: seq<Ptr>, n: nat)
    requires SiblingsOk(nodes, p, l) && n < |l|
    ensures l[n] in nodes && l[n] != Root && l[n] != Null && nodes[l[n]].next == First(l[n + 1..])
  {}

  // When no child of p carries the label, neither does any node at that path.
  lemma MissingChild(t: Tree, p: Ptr, tag: Label)
    requires Ok(t) && p in t.nodes && forall q | q in t.kids[p] && q in t.nodes :: t.nodes[q].tag != tag
    ensures IsNew(t, p, tag)
  {
    hide BlocksOk;
    NewPathIsNew(t.nodes, t.kids, t.path, p, tag);
  }

  lemma ChildPath(t: Tree, p: Ptr, q: Ptr)
    requires Ok(t) && p in t.nodes && q in t.kids[p]
    ensures q in t.nodes && q in t.path && q != Root && p in t.path && t.path[q] == t.path[p] + [t.nodes[q].tag]
  {
    hide BlocksOk;
    var n :| 0 <= n < |t.kids[p]| && t.kids[p][n] == q;
  }

  /** p is an ancestor of q or q itself. */
  ghost predicate Above(t: Tree, p: Ptr, q: Ptr) {
    p in t.path && q in t.path && t.path[p] <= t.path[q]
  }

  /** The labels below p on the way to q. */
  ghost function Below(t: Tree, p: Ptr, q: Ptr): Path
    requires Above(t, p, q)
  {
    t.path[q][|t.path[p]|..]
  }

  lemma ParentFacts(t: Tree, p: Ptr)
    requires Ok(t) && p in t.nodes
    ensures p in t.path && p != Null && Root in t.path && t.path[Root] == []
    ensures p == Root ==> t.nodes[p].parent == Null && t.nodes[p].tag.attr == INV_ID
    ensures p != Root ==> var q := t.nodes[p].parent;
      q in t.nodes && q in t.path && q != Null && t.path[p] == t.path[q] + [t.nodes[p].tag]
  {
    hide LinksOk, BlocksOk;
  }

  // A strict ancestor of q is an ancestor of its parent.
  lemma AboveParent(t: Tree, p: Ptr, q: Ptr)
    requires Ok(t) && p in t.nodes && q in t.nodes && Above(t, p, q) && p != q
    ensures q != Root && t.nodes[q].parent in t.nodes && Above(t, p, t.nodes[q].parent)
    ensures |t.path[q]| == |t.path[t.nodes[q].parent]| + 1
    ensures Below(t, p, q) == Below(t, p, t.nodes[q].parent) + [t.nodes[q].tag]
  {
    hide LinksOk, BlocksOk;
    SamePathSameNode(t.nodes, t.kids, t.path, p, q);
  }

  // One label further up, still without the attribute.
  lemma StepUp(t: Tree, node: Ptr, start: Ptr, attr: Id)
    requires Ok(t) && node in t.nodes && start in t.nodes && Above(t, node, start) && t.nodes[node].tag.attr != attr
    requires !Mentions(t.path[start][|t.path[node]|..], attr)
    ensures node == Root ==> !Mentions(t.path[start], attr)
    ensures node != Root ==> t.nodes[node].parent in t.nodes && Above(t, t.nodes[node].parent, start)
                             && !Mentions(t.path[start][|t.path[t.nodes[node].parent]|..], attr)
  {
    hide Ok;
    RootFacts(t);
    ParentFacts(t, node);
    if node == Root {
      assert t.path[start][0..] == t.path[start];
    } else {
      var up := t.nodes[node].parent;
      assert t.path[start][|t.path[up]|..] == [t.nodes[node].tag] + t.path[start][|t.path[node]|..];
    }
  }

  class MetadataTree {
    var nodes: Nodes
    var fill: seq<nat>                    // used indices of each node block
    ghost var kids: map<Ptr, seq<Ptr>>    // sibling lists
    ghost var path: map<Ptr, Path>        // labels from the root

    ghost function State(): Tree
      reads this
    {
      Tree(nodes, fill, kids, path)
    }

    ghost predicate Valid()
      reads this
    {
      Ok(State())
    }

    /** Places a node in the current block and hangs it under its parent. */
    method AddNode(tag: Label, parent: Ptr) returns (r: Ptr)
      requires Valid() && IsNew(State(), parent, tag) && Capacity(State()) > 0
      modifies this
      ensures Valid() && parent in old(kids) && |old(fill)| > 0
      ensures State() == Grown(old(State()), parent, tag) && r == NewChild(old(State()))
      ensures r !in old(nodes) && r.At?
      ensures Extends(old(State()), State()) && Capacity(State()) == old(Capacity(State())) - 1
    {
      hide Ok, Extends;
      GrownOk(State(), parent, tag);
      ghost var t := State();
      if fill[|fill| - 1] + 1 >= NODES_PER_BLOCK {
        fill := fill + [0];
      }
      var index := fill[|fill| - 1];
      r := At((|fill| - 1) * NODES_PER_BLOCK + index);
      nodes := Linked(nodes, parent, r, tag);
      fill := fill[|fill| - 1 := index + 1];
      kids, path := kids[parent := [r] + kids[parent]][r := []], path[r := path[parent] + [tag]];
    }

    constructor ()
      ensures Valid() && Capacity(State()) == NUM_BLOCKS * (NODES_PER_BLOCK - 1) - 12
      ensures Booted(State(), BootstrapNodes(), 12)
    {
      nodes := map[Root := Node(Label(INV_ID, Empty), Null, Null, Null)];
      fill := [0];
      kids, path := map[Root := []], map[Root := []];
      new;
      hide Ok, Extends, IsNew;
      hide BootstrapNodes, Bootable, Grown, NewChild;
      RootOnly(State());
      BootstrapIsBootable();
      var b := BootstrapNodes();
      assert Booted(State(), b, 0);
      hide Booted, First;
      Boot(b);
    }

    /** Adds the bootstrap nodes one by one. */
    method Boot(b: seq<Bootstrap>)
      requires Valid() && Bootable(b) && Booted(State(), b, 0)
      modifies this
      ensures Valid() && Booted(State(), b, 12) && Capacity(State()) == NUM_BLOCKS * (NODES_PER_BLOCK - 1) - 12
    {
      hide Ok, Extends, IsNew, Bootable, Grown, NewChild, Booted;
      for i := 0 to 12
        invariant Valid() && Booted(State(), b, i)
      {
        BootStep(State(), b, i);
        BootRoom(State(), b, i);
        var n := AddNode(b[i].tag, b[i].parent);
      }
      BootRoom(State(), b, 12);
    }

    /** Walks p's sibling list for a child with the given label. */
    method FindChild(p: Ptr, tag: Label) returns (r: Ptr)
      requires Valid() && p in nodes
      ensures r == Null ==> IsNew(State(), p, tag)
      ensures p in path
      ensures r != Null ==> r in nodes && r in path && r != Root && path[r] == path[p] + [tag]
    {
      hide Ok, SiblingsOk, IsNew;
      HeadOfList(State(), p);
      RootFacts(State());
      ghost var l, n := kids[p], 0;
      r := nodes[p].head;
      if l != [] { NextInList(nodes, p, l, 0); }
      while r != Null && nodes[r].tag != tag
        invariant 0 <= n <= |l| && r == First(l[n..]) && (r != Null ==> r in nodes)
        invariant forall m: nat | m < n :: l[m] in nodes && nodes[l[m]].tag != tag
        decreases |l| - n
      {
        NextInList(nodes, p, l, n);
        r := nodes[r].next;
        n := n + 1;
        if n < |l| { NextInList(nodes, p, l, n); }
      }
      if r == Null {
        if n < |l| { NextInList(nodes, p, l, n); }
        MissingChild(State(), p, tag);
      } else {
        ChildPath(State(), p, r);
      }
    }

    /** Finds or creates the child of `parent` (the root if null) with the given label. */
    method GetChild(tag: Label, parent: Ptr) returns (r: Ptr)
      requires Valid() && (parent == Null || parent in nodes) && Capacity(State()) > 0
      modifies this
      ensures Valid() && Extends(old(State()), State()) && Capacity(State()) >= old(Capacity(State())) - 1
      ensures var p := if parent == Null then Root else parent;
              && r in nodes && r in path && r != Root && p in old(path) && path[r] == old(path)[p] + [tag]
      ensures r in old(nodes) ==> State() == old(State())
    {
      hide Ok, IsNew, Extends;
      RootFacts(State());
      ExtendsItself(State());
      var p := if parent == Null then Root else parent;
      r := FindChild(p, tag);
      if r == Null {
        r := AddNode(tag, p);
      }
    }

    /** Finds or creates a child of `parent` (the root if null) with the label of node `from`. */
    method GetOrCopyNode(from: Ptr, parent: Ptr) returns (r: Ptr)
      requires Valid() && from in nodes && (parent == Null || parent in nodes) && Capacity(State()) > 0
      modifies this
      ensures Valid() && Extends(old(State()), State()) && Capacity(State()) >= old(Capacity(State())) - 1
      ensures var p := if parent == Null then Root else parent;
              && r in nodes && r in path && r != Root && p in old(path)
              && path[r] == old(path)[p] + [old(nodes)[from].tag]
      ensures r in old(nodes) ==> State() == old(State())
    {
      r := GetChild(nodes[from].tag, parent);
    }

    /** Rebuilds under `parent` the labels below it on the way to `node`, except those of `attr`. */
    method CopyPathWithoutAttribute(attr: Id, node: Ptr, parent: Ptr) returns (r: Ptr)
      requires Valid() && (node == Null || node in nodes) && (parent == Null || parent in nodes)
      requires var p := if parent == Null then Root else parent;
               node != Null ==> Above(State(), p, node) && Capacity(State()) >= |path[node]| - |path[p]|
      modifies this
      ensures Valid() && Extends(old(State()), State())
      ensures var p := if parent == Null then Root else parent;
              && r in nodes && r in path && p in old(path)
              && (node == Null ==> r == p && State() == old(State()))
              && (node != Null ==>
                    && Above(old(State()), p, node)
                    && path[r] == old(path)[p] + WithoutAttr(Below(old(State()), p, node), attr)
                    && Capacity(State()) >= old(Capacity(State())) - (|old(path)[node]| - |old(path)[p]|))
      decreases if node != Null && node in path then |path[node]| else 0
    {
      hide Ok, Extends;
      ghost var t := State();
      RootFacts(t);
      ExtendsItself(t);
      var p := if parent == Null then Root else parent;
      if node == Null || node == p {
        assert node != Null ==> Below(t, p, node) == [];
        assert t.path[p] + WithoutAttr([], attr) == t.path[p];
        return p;
      }
      AboveParent(t, p, node);
      hide Above, Below, WithoutAttr;
      r := CopyPathWithoutAttribute(attr, nodes[node].parent, p);
      WithoutSnoc(t.path[p], Below(t, p, t.nodes[node].parent), t.nodes[node].tag, attr);
      ExtendsFacts(t, State(), node);
      if attr != nodes[node].tag.attr {
        ghost var t1 := State();
        RootFacts(t1);
        r := GetOrCopyNode(node, r);
        ExtendsTransitive(t, t1, State());
      }
    }

    /** The innermost node on the path with the attribute, or none. */
    method FindInPath(start: Ptr, attr: Id) returns (node: Ptr)
      requires Valid() && (start == Null || (start in nodes && start in path)) && attr != INV_ID
      ensures node != Null ==> start != Null && node in nodes && Above(State(), node, start) && nodes[node].tag.attr == attr
      ensures node != Null ==> node in path && start in path && !Mentions(path[start][|path[node]|..], attr)
      ensures node == Null && start != Null ==> start in path && !Mentions(path[start], attr)
    {
      hide Ok, Extends;
      ghost var t := State();
      RootFacts(t);
      node := start;
      if start != Null {
        assert t.path[start] == t.path[Root] + t.path[start];
        assert t.path[start][|t.path[start]|..] == [];
      }
      while node != Null && nodes[node].tag.attr != attr
        invariant node != Null ==> node in nodes && start != Null && Above(t, node, start)
        invariant node != Null ==> !Mentions(t.path[start][|t.path[node]|..], attr)
        invariant node == Null && start != Null ==> !Mentions(t.path[start], attr)
        decreases if node != Null && node in t.path then |t.path[node]| + 1 else 0
      {
        ParentFacts(t, node);
        StepUp(t, node, start, attr);
        node := nodes[node].parent;
      }
    }

    /** The node for the path without its innermost label for `attr`. */
    method RemoveFirstInPath(start: Ptr, attr: Id) returns (r: Ptr)
      requires Valid() && (start == Null || start in nodes) && attr != INV_ID
      requires start != Null ==> start in path && Capacity(State()) >= |path[start]|
      modifies this
      ensures Valid() && Extends(old(State()), State())
      ensures r in nodes && r in path
      ensures path[r] == RemoveInnermost(if start == Null then [] else old(path)[start], attr)
      ensures Capacity(State()) >= old(Capacity(State())) - (if start == Null then 0 else |old(path)[start]|)
    {
      hide Ok, Extends;
      ghost var t := State();
      RootFacts(t);
      var node := FindInPath(start, attr);
      if start != Null {
        assert t.path[start] == t.path[Root] + t.path[start];
        assert t.path[start][0..] == t.path[start];
      }
      if node != Null {
        ParentFacts(t, node);
        ghost var k := |t.path[node]| - 1;
        RemoveAt(t.path[start], k, attr);
        node := nodes[node].parent;
        assert t.path[start][..k] == t.path[node];
      } else if start != Null {
        WithoutAbsent(t.path[start], attr);
      }
      r := CopyPathWithoutAttribute(attr, start, node);
    }

    /** The node for the path without its innermost label for the attribute, with the new label added. */
    method ReplaceFirstInPath(start: Ptr, tag: Label) returns (r: Ptr)
      requires Valid() && (start == Null || start in nodes) && tag.attr != INV_ID
      requires start != Null ==> start in path && Capacity(State()) > |path[start]|
      requires Capacity(State()) > 0
      modifies this
      ensures Valid() && Extends(old(State()), State())
      ensures r in nodes && r in path && r != Root
      ensures path[r] == RemoveInnermost(if start == Null then [] else old(path)[start], tag.attr) + [tag]
      ensures Capacity(State()) >= old(Capacity(State())) - (if start == Null then 0 else |old(path)[start]|) - 1
    {
      hide Ok, Extends;
      ghost var t := State();
      RootFacts(t);
      ExtendsItself(t);
      var p := start;
      if p != Null {
        p := RemoveFirstInPath(p, tag.attr);
      }
      ghost var t1 := State();
      RootFacts(t1);
      r := GetChild(tag, p);
      ExtendsTransitive(t, t1, State());
    }
  }

  // --- Whole runs

  // Operations on the node an earlier operation gave: the last is number 1, and 0 is null.
  datatype TreeOp = Child(at: nat, tag: Label) | Remove(at: nat, attr: Id) | Replace(at: nat, tag: Label)

  predicate OpsOk(ops: seq<TreeOp>) {
    forall i: nat | i < |ops| ::
      ops[i].at <= i && (ops[i].Remove? ==> ops[i].attr != INV_ID) && (ops[i].Replace? ==> ops[i].tag.attr != INV_ID)
  }

  function PathBefore(done: seq<Path>, at: nat): Path
    requires at <= |done|
  {
    if at == 0 then [] else done[|done| - at]
  }

  function PathAfter(s: Path, op: TreeOp): Path {
    match op
    case Child(_, tag) => s + [tag]
    case Remove(_, attr) => RemoveInnermost(s, attr)
    case Replace(_, tag) => RemoveInnermost(s, tag.attr) + [tag]
  }

  /** The path of labels each operation stands for, computed without any tree. */
  function Paths(ops: seq<TreeOp>): (r: seq<Path>)
    requires OpsOk(ops)
    ensures |r| == |ops|
  {
    if ops == [] then []
    else
      var done := Paths(ops[..|ops| - 1]);
      done + [PathAfter(PathBefore(done, ops[|ops| - 1].at), ops[|ops| - 1])]
  }

  // How many nodes the operations may need.
  function Needed(ops: seq<TreeOp>): nat
    requires OpsOk(ops)
  {
    if ops == [] then 0
    else Needed(ops[..|ops| - 1]) + |PathBefore(Paths(ops[..|ops| - 1]), ops[|ops| - 1].at)| + 1
  }

  lemma PathsSnoc(ops: seq<TreeOp>, n: nat)
    requires OpsOk(ops) && n < |ops|
    ensures OpsOk(ops[..n]) && OpsOk(ops[..n + 1]) && ops[n].at <= n
    ensures Paths(ops[..n + 1]) == Paths(ops[..n]) + [PathAfter(PathBefore(Paths(ops[..n]), ops[n].at), ops[n])]
    ensures Needed(ops[..n + 1]) == Needed(ops[..n]) + |PathBefore(Paths(ops[..n]), ops[n].at)| + 1
  {
    assert ops[..n + 1][..n] == ops[..n];
  }

  lemma {:induction false} NeededGrows(ops: seq<TreeOp>, n: nat)
    requires OpsOk(ops) && n <= |ops|
    ensures OpsOk(ops[..n]) && Needed(ops[..n]) <= Needed(ops)
    decreases |ops| - n
  {
    if n == |ops| {
      assert ops[..n] == ops;
    } else {
      PathsSnoc(ops, n);
      NeededGrows(ops, n + 1);
    }
  }

  // The node each operation gave.
  ghost predicate Gave(t: Tree, done: seq<Ptr>, paths: seq<Path>) {
    |done| == |paths| && forall i: nat | i < |done| :: done[i] in t.nodes && done[i] in t.path && t.path[done[i]] == paths[i]
  }

  lemma GaveExtends(t: Tree, t': Tree, done: seq<Ptr>, paths: seq<Path>)
    requires Gave(t, done, paths) && Extends(t, t')
    ensures Gave(t', done, paths)
  {
    hide Extends;
    forall i: nat | i < |done| ensures done[i] in t'.nodes && done[i] in t'.path && t'.path[done[i]] == paths[i] {
      ExtendsFacts(t, t', done[i]);
    }
  }

  lemma SameGiven(t: Tree, done: seq<Ptr>, paths: seq<Path>)
    requires Ok(t) && Gave(t, done, paths)
    ensures forall i: nat, j: nat | i < |done| && j < |done| :: done[i] == done[j] <==> paths[i] == paths[j]
  {
    hide Ok;
    forall i: nat, j: nat | i < |done| && j < |done| ensures done[i] == done[j] <==> paths[i] == paths[j] {
      SameInTree(t, done[i], done[j]);
    }
  }

  lemma SameInTree(t: Tree, p: Ptr, q: Ptr)
    requires Ok(t) && p in t.nodes && q in t.nodes
    ensures p in t.path && q in t.path && (p == q <==> t.path[p] == t.path[q])
  {
    hide LinksOk, BlocksOk;
    SamePathSameNode(t.nodes, t.kids, t.path, p, q);
  }

  method Apply(tree: MetadataTree, op: TreeOp, at: Ptr) returns (r: Ptr)
    requires tree.Valid() && (at == Null || (at in tree.nodes && at in tree.path))
    requires (op.Remove? ==> op.attr != INV_ID) && (op.Replace? ==> op.tag.attr != INV_ID)
    requires Capacity(tree.State()) > if at == Null then 0 else |tree.path[at]|
    modifies tree
    ensures tree.Valid() && Extends(old(tree.State()), tree.State()) && r in tree.nodes && r in tree.path
    ensures tree.path[r] == PathAfter(if at == Null then [] else old(tree.path)[at], op)
    ensures Capacity(tree.State()) >= old(Capacity(tree.State())) - (if at == Null then 0 else |old(tree.path)[at]|) - 1
  {
    hide Ok, Extends, Capacity;
    RootFacts(tree.State());
    match op
    case Child(_, tag) => r := tree.GetChild(tag, at);
    case Remove(_, attr) => r := tree.RemoveFirstInPath(at, attr);
    case Replace(_, tag) => r := tree.ReplaceFirstInPath(at, tag);
  }

  /** Hash-consing over whole runs: whatever operations are run on whatever tree, each gives a node with
      the path the operations stand for, and two of these nodes are the same if and only if these paths
      are equal. */
  method RunOps(tree: MetadataTree, ops: seq<TreeOp>) returns (done: seq<Ptr>)
    requires tree.Valid() && OpsOk(ops) && Capacity(tree.State()) >= Needed(ops)
    modifies tree
    ensures tree.Valid() && Extends(old(tree.State()), tree.State()) && Gave(tree.State(), done, Paths(ops))
    ensures forall i: nat, j: nat | i < |ops| && j < |ops| :: done[i] == done[j] <==> Paths(ops)[i] == Paths(ops)[j]
  {
    hide Ok, Extends, Capacity, Paths, Needed, PathAfter;
    ghost var before := tree.State();
    ExtendsItself(before);
    done := [];
    assert Paths([]) == [] && Needed([]) == 0 by { NoOps(); }
    for n := 0 to |ops|
      invariant OpsOk(ops[..n]) && |done| == n && tree.Valid() && Extends(before, tree.State())
      invariant Gave(tree.State(), done, Paths(ops[..n]))
      invariant Capacity(tree.State()) >= Capacity(before) - Needed(ops[..n])
    {
      PathsSnoc(ops, n);
      NeededGrows(ops, n + 1);
      ghost var t := tree.State();
      var at := if ops[n].at == 0 then Null else done[n - ops[n].at];
      RootFacts(t);
      var r := Apply(tree, ops[n], at);
      ExtendsTransitive(before, t, tree.State());
      GaveExtends(t, tree.State(), done, Paths(ops[..n]));
      done := done + [r];
    }
    assert ops[..|ops|] == ops;
    SameGiven(tree.State(), done, Paths(ops));
  }

  lemma NoOps()
    ensures Paths([]) == [] && Needed([]) == 0
  {
  }
}
