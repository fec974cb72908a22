/** Region tracking on one thread: begin/end/set act on blackboard slots that hold nodes of the
    context tree, and denote stacks of (attribute, value) labels. */
module Regions {
  import opened Variants
  import opened ContextTrees
  import opened Blackboards

  const REGION_KEY: Id := 1
  const UNALIGNED_KEY: Id := 2

  // An attribute with the properties that matter here.
  datatype Attr = Attr(id: Id, asValue: bool, unaligned: bool, hidden: bool)

  datatype Op = Begin(attr: Attr, value: Variant)
              | End(attr: Attr)
              | EndWithValue(attr: Attr, value: Variant)
              | Set(attr: Attr, value: Variant)

  /** What a thread's blackboard means: two stacks of open regions, the values stored directly,
      and whether a nesting error has ended region tracking. */
  datatype Stacks = Stacks(region: Path, unaligned: Path, values: map<Id, Variant>, error: bool)

  function StackOf(s: Stacks, a: Attr): Path {
    if a.unaligned then s.unaligned else s.region
  }

  function WithStack(s: Stacks, a: Attr, p: Path): Stacks {
    if a.unaligned then s.(unaligned := p) else s.(region := p)
  }

  // Number of blackboard slots in use.
  function SlotsUsed(s: Stacks): nat {
    (if s.region == [] then 0 else 1) + (if s.unaligned == [] then 0 else 1) + |s.values|
  }

  /** An update is dropped when it needs a new slot and the blackboard is full. */
  predicate HasSlot(s: Stacks, a: Attr) {
    (if a.asValue then a.id in s.values else StackOf(s, a) != []) || SlotsUsed(s) < CAPACITY
  }

  /** The value of the innermost label for attribute a. */
  function Innermost(p: Path, a: Id): Variant
    requires Mentions(p, a)
  {
    if p[|p| - 1].attr == a then p[|p| - 1].data
    else
      assert Mentions(p[..|p| - 1], a) by { var i :| 0 <= i < |p| && p[i].attr == a; assert p[..|p| - 1][i].attr == a; }
      Innermost(p[..|p| - 1], a)
  }

  /** An end is accepted if its attribute is innermost, or merely open where overlap is tolerated. */
  predicate Accepts(s: Stacks, a: Attr, overlap: bool) {
    if a.asValue then a.id in s.values
    else
      var p := StackOf(s, a);
      Mentions(p, a.id) && (p[|p| - 1].attr == a.id || a.unaligned || overlap)
  }

  function CurrentValue(s: Stacks, a: Attr, overlap: bool): Variant
    requires Accepts(s, a, overlap)
  {
    if a.asValue then s.values[a.id] else Innermost(StackOf(s, a), a.id)
  }

  function WithoutValue(s: Stacks, a: Attr): Stacks {
    s.(values := s.values - {a.id})
  }

  function Ended(s: Stacks, a: Attr): Stacks {
    if a.asValue then WithoutValue(s, a)
    else WithStack(s, a, RemoveInnermost(StackOf(s, a), a.id))
  }

  /** One annotation call on the stacks. */
  function Step(s: Stacks, overlap: bool, op: Op): Stacks {
    if s.error then s
    else match op
      case Begin(a, v) =>
        if !HasSlot(s, a) then s
        else if a.asValue then s.(values := s.values[a.id := v])
        else WithStack(s, a, StackOf(s, a) + [Label(a.id, v)])
      case Set(a, v) =>
        if !HasSlot(s, a) then s
        else if a.asValue then s.(values := s.values[a.id := v])
        else WithStack(s, a, RemoveInnermost(StackOf(s, a), a.id) + [Label(a.id, v)])
      case End(a) =>
        if Accepts(s, a, overlap) then Ended(s, a) else s.(error := true)
      case EndWithValue(a, v) =>
        if Accepts(s, a, overlap) && CurrentValue(s, a, overlap) == v then Ended(s, a) else s.(error := true)
  }

  function Steps(s: Stacks, overlap: bool, ops: seq<Op>): Stacks {
    if ops == [] then s else Step(Steps(s, overlap, ops[..|ops| - 1]), overlap, ops[|ops| - 1])
  }

  // --- Properties of runs

  /** After a nesting error nothing on this thread changes any more. */
  lemma {:induction false} ErrorIsFinal(s: Stacks, overlap: bool, ops: seq<Op>)
    requires s.error
    ensures Steps(s, overlap, ops) == s
  {
    if ops != [] { ErrorIsFinal(s, overlap, ops[..|ops| - 1]); }
  }

  /** A rejected end leaves stacks and values as they were, for the rest of any run. */
  lemma RejectedEndFreezes(s: Stacks, overlap: bool, a: Attr, later: seq<Op>)
    requires !s.error && !Accepts(s, a, overlap)
    ensures Steps(Step(s, overlap, End(a)), overlap, later) == s.(error := true)
  {
    ErrorIsFinal(s.(error := true), overlap, later);
  }

  /** k is the index of the innermost label for attribute a. */
  ghost predicate InnermostAt(p: Path, k: nat, a: Id) {
    k < |p| && p[k].attr == a && forall j: nat | k < j < |p| :: p[j].attr != a
  }

  function Occurrences(p: Path, a: Id): nat {
    if p == [] then 0 else Occurrences(p[..|p| - 1], a) + if p[|p| - 1].attr == a then 1 else 0
  }

  lemma {:induction false} InnermostRemoved(p: Path, k: nat, a: Id)
    requires InnermostAt(p, k, a)
    ensures RemoveInnermost(p, a) == p[..k] + p[k + 1..]
    ensures Mentions(p, a) && Innermost(p, a) == p[k].data
  {
    var n := |p| - 1;
    if k == n {
      assert p[..k] + p[k + 1..] == p[..n];
    } else {
      InnermostRemoved(p[..n], k, a);
      assert p[k + 1..] == p[..n][k + 1..] + [p[n]];
    }
  }

  lemma {:induction false} NoOccurrences(p: Path, a: Id)
    requires !Mentions(p, a)
    ensures Occurrences(p, a) == 0
  {
    hide Mentions;
    if p != [] {
      MentionsLast(p, a);
      NoOccurrences(p[..|p| - 1], a);
    }
  }

  lemma {:induction false} RemovedCounts(p: Path, a: Id)
    ensures Occurrences(RemoveInnermost(p, a), a) == if Mentions(p, a) then Occurrences(p, a) - 1 else 0
    ensures Mentions(p, a) ==> Occurrences(p, a) > 0
    ensures WithoutAttr(RemoveInnermost(p, a), a) == WithoutAttr(p, a)
  {
    hide Mentions;
    if p == [] {
      assert !Mentions(p, a) by { MentionsNothing(a); }
    } else {
      var n := |p| - 1;
      RemovedCounts(p[..n], a);
      MentionsLast(p, a);
      if p[n].attr == a {
        if !Mentions(p[..n], a) { NoOccurrences(p[..n], a); }
      } else {
        var r := RemoveInnermost(p[..n], a);
        assert (r + [p[n]])[..|r|] == r;
      }
    }
  }

  lemma MentionsNothing(a: Id)
    ensures !Mentions([], a)
  {
  }

  lemma MentionsLast(p: Path, a: Id)
    requires p != []
    ensures Mentions(p, a) <==> p[|p| - 1].attr == a || Mentions(p[..|p| - 1], a)
  {
    var front := p[..|p| - 1];
    if Mentions(p, a) {
      var i :| 0 <= i < |p| && p[i].attr == a;
      if i < |front| { assert front[i].attr == a; }
    }
    if Mentions(front, a) {
      var i :| 0 <= i < |front| && front[i].attr == a;
      assert p[i].attr == a;
    }
  }

  /** The path with the innermost label of an attribute replaced by one on top. */
  ghost predicate Replaced(p: Path, a: Id, v: Variant, q: Path) {
    && (forall k: nat | InnermostAt(p, k, a) :: q == p[..k] + p[k + 1..] + [Label(a, v)])
    && (!Mentions(p, a) ==> q == p + [Label(a, v)])
    && Occurrences(q, a) == (if Mentions(p, a) then Occurrences(p, a) else 1)
    && WithoutAttr(q, a) == WithoutAttr(p, a)
  }

  lemma ReplacedOnTop(p: Path, a: Id, v: Variant)
    ensures Replaced(p, a, v, RemoveInnermost(p, a) + [Label(a, v)])
  {
    hide Mentions, InnermostAt, RemoveInnermost;
    var r := RemoveInnermost(p, a);
    forall k: nat | InnermostAt(p, k, a) ensures k < |p| && r == p[..k] + p[k + 1..] {
      InnermostInside(p, k, a);
      InnermostRemoved(p, k, a);
    }
    if !Mentions(p, a) { WithoutAbsent(p, a); }
    RemovedCounts(p, a);
    OnTop(r, a, v);
  }

  lemma InnermostInside(p: Path, k: nat, a: Id)
    requires InnermostAt(p, k, a)
    ensures k < |p|
  {
  }

  lemma OnTop(r: Path, a: Id, v: Variant)
    ensures Occurrences(r + [Label(a, v)], a) == Occurrences(r, a) + 1 && WithoutAttr(r + [Label(a, v)], a) == WithoutAttr(r, a)
  {
    assert (r + [Label(a, v)])[..|r|] == r;
  }

  /** Setting an attribute takes its innermost label out, wherever it is, and puts the new one on top. An
      attribute that is open does not get open more often, the labels of other attributes keep their order, and
      nothing else changes. */
  lemma SetMeaning(s: Stacks, overlap: bool, a: Attr, v: Variant)
    requires !s.error && !a.asValue && HasSlot(s, a)
    ensures var t := Step(s, overlap, Op.Set(a, v));
            && (if a.unaligned then Replaced(s.unaligned, a.id, v, t.unaligned) && t.region == s.region
                else Replaced(s.region, a.id, v, t.region) && t.unaligned == s.unaligned)
            && t.values == s.values && !t.error
  {
    hide Replaced, RemoveInnermost, HasSlot;
    ReplacedOnTop(StackOf(s, a), a.id, v);
  }

  /** Of two settings of one attribute only the last one shows. */
  lemma SetTwice(s: Stacks, overlap: bool, a: Attr, v: Variant, w: Variant)
    requires !s.error && HasSlot(s, a)
    ensures Step(Step(s, overlap, Op.Set(a, v)), overlap, Op.Set(a, w)) == Step(s, overlap, Op.Set(a, w))
  {
    if !a.asValue {
      var r := RemoveInnermost(StackOf(s, a), a.id);
      assert (r + [Label(a.id, v)])[..|r|] == r;
    } else {
      assert s.values[a.id := v][a.id := w] == s.values[a.id := w];
    }
  }

  /** Which ends are accepted. An end of an attribute that is not open is an error. Without overlap an end of a
      region attribute that is open but not innermost is one, too; otherwise the innermost label of the attribute
      goes, wherever it is. */
  lemma EndMeaning(s: Stacks, overlap: bool, a: Attr)
    requires !s.error && !a.asValue
    ensures var t := Step(s, overlap, End(a));
            var p, q := if a.unaligned then s.unaligned else s.region, if a.unaligned then t.unaligned else t.region;
            && (!Mentions(p, a.id) ==> t == s.(error := true))
            && (forall k: nat | InnermostAt(p, k, a.id) && k + 1 < |p| && !a.unaligned && !overlap :: t == s.(error := true))
            && (forall k: nat | InnermostAt(p, k, a.id) && (k + 1 == |p| || a.unaligned || overlap) ::
                  && q == p[..k] + p[k + 1..] && !t.error && t.values == s.values
                  && if a.unaligned then t.region == s.region else t.unaligned == s.unaligned)
  {
    var p := StackOf(s, a);
    forall k: nat | InnermostAt(p, k, a.id)
      ensures Mentions(p, a.id) && RemoveInnermost(p, a.id) == p[..k] + p[k + 1..]
      ensures k + 1 < |p| ==> p[|p| - 1].attr != a.id
    {
      InnermostRemoved(p, k, a.id);
    }
  }

  /** An end with a value is an error unless it is the value of the innermost label, and otherwise ends as
      without one. */
  lemma EndWithValueMeaning(s: Stacks, overlap: bool, a: Attr, v: Variant, k: nat)
    requires !s.error && !a.asValue && InnermostAt(if a.unaligned then s.unaligned else s.region, k, a.id)
    ensures var p := if a.unaligned then s.unaligned else s.region;
            Step(s, overlap, EndWithValue(a, v)) == if p[k].data == v then Step(s, overlap, End(a)) else s.(error := true)
  {
    InnermostRemoved(StackOf(s, a), k, a.id);
  }

  /** For attributes stored by value, a set or begin overwrites, and an end takes the value away if there is
      one, and the right one if it is given. */
  lemma ValueMeaning(s: Stacks, overlap: bool, a: Attr, v: Variant)
    requires !s.error && a.asValue
    ensures Step(s, overlap, Op.Set(a, v)) == Step(s, overlap, Begin(a, v))
    ensures Step(s, overlap, Op.Set(a, v)) == if a.id in s.values || SlotsUsed(s) < CAPACITY then s.(values := s.values[a.id := v]) else s
    ensures Step(s, overlap, End(a)) == if a.id in s.values then s.(values := s.values - {a.id}) else s.(error := true)
    ensures Step(s, overlap, EndWithValue(a, v))
         == if a.id in s.values && s.values[a.id] == v then s.(values := s.values - {a.id}) else s.(error := true)
  {
  }

  lemma {:induction false} StepsAppend(s: Stacks, overlap: bool, a: seq<Op>, b: seq<Op>)
    ensures Steps(s, overlap, a + b) == Steps(Steps(s, overlap, a), overlap, b)
  {
    if b == [] {
      assert a + b == a;
    } else {
      assert (a + b)[..|a + b| - 1] == a + b[..|b| - 1];
      StepsAppend(s, overlap, a, b[..|b| - 1]);
    }
  }

  /** Properly nested regions: each has an attribute, a value and nested regions inside. */
  datatype Nest = Done | Region(attr: Attr, value: Variant, inner: Nest, after: Nest)

  function Calls(n: Nest): seq<Op> {
    match n
    case Done => []
    case Region(a, v, inner, after) => [Begin(a, v)] + Calls(inner) + [End(a)] + Calls(after)
  }

  predicate ByReference(n: Nest) {
    n.Region? ==> !n.attr.asValue && ByReference(n.inner) && ByReference(n.after)
  }

  /** A properly nested sequence of begin and end calls restores the stacks it started from. */
  lemma {:induction false} NestingRestores(s: Stacks, overlap: bool, n: Nest)
    requires !s.error && ByReference(n) && |s.values| + 2 <= CAPACITY
    ensures Steps(s, overlap, Calls(n)) == s
    decreases n
  {
    match n
    case Done =>
    case Region(a, v, inner, after) =>
      var begun := WithStack(s, a, StackOf(s, a) + [Label(a.id, v)]);
      BeginThenEnd(s, overlap, a, v);
      hide Step, Steps;
      NestingRestores(begun, overlap, inner);
      StepsAppend(s, overlap, [Begin(a, v)], Calls(inner));
      StepsAppend(s, overlap, [Begin(a, v)] + Calls(inner), [End(a)]);
      NestingRestores(s, overlap, after);
      StepsAppend(s, overlap, [Begin(a, v)] + Calls(inner) + [End(a)], Calls(after));
  }

  lemma BeginThenEnd(s: Stacks, overlap: bool, a: Attr, v: Variant)
    requires !s.error && !a.asValue && |s.values| + 2 <= CAPACITY
    ensures var begun := WithStack(s, a, StackOf(s, a) + [Label(a.id, v)]);
            && Steps(s, overlap, [Begin(a, v)]) == begun
            && Steps(begun, overlap, [End(a)]) == s
  {
    var begun := WithStack(s, a, StackOf(s, a) + [Label(a.id, v)]);
    var p := StackOf(begun, a);
    assert p[|p| - 1].attr == a.id && p[..|p| - 1] == StackOf(s, a);
    assert [Begin(a, v)][..0] == [] && [End(a)][..0] == [];
    assert Steps(s, overlap, []) == s && Steps(begun, overlap, []) == begun;
  }

  // --- The blackboard and tree representation of the stacks

  function Key(a: Attr): Id {
    if a.asValue then a.id else if a.unaligned then UNALIGNED_KEY else REGION_KEY
  }

  /** The slot is absent exactly for the empty stack; otherwise it holds the node whose path it is. */
  ghost predicate SlotDenotes(m: map<nat, Entry>, t: Tree, key: Id, p: Path) {
    if p == [] then key !in m
    else
      && key in m && m[key].Reference? && At(m[key].node) in t.nodes
      && At(m[key].node) in t.path && t.path[At(m[key].node)] == p
      && forall l | l in p :: l.attr != NAME_ATTR
  }

  ghost predicate Denotes(m: map<nat, Entry>, t: Tree, s: Stacks) {
    && SlotDenotes(m, t, REGION_KEY, s.region)
    && SlotDenotes(m, t, UNALIGNED_KEY, s.unaligned)
    && (forall k | k in s.values :: k != REGION_KEY && k != UNALIGNED_KEY && k in m && m[k] == Immediate(k, s.values[k]))
    && (forall k | k in m :: k == REGION_KEY || k == UNALIGNED_KEY || k in s.values)
  }

  function StackSlots(s: Stacks): set<nat> {
    (if s.region == [] then {} else {REGION_KEY}) + (if s.unaligned == [] then {} else {UNALIGNED_KEY})
  }

  lemma StackSlotsSize(s: Stacks)
    ensures |StackSlots(s)| == (if s.region == [] then 0 else 1) + (if s.unaligned == [] then 0 else 1)
  {}

  lemma DenotesKeys(m: map<nat, Entry>, t: Tree, s: Stacks)
    requires Denotes(m, t, s)
    ensures m.Keys == StackSlots(s) + s.values.Keys && StackSlots(s) !! s.values.Keys
  {}

  lemma DenotesSize(m: map<nat, Entry>, t: Tree, s: Stacks)
    requires Denotes(m, t, s)
    ensures |m| == SlotsUsed(s)
  {
    hide Denotes, StackSlots;
    DenotesKeys(m, t, s);
    StackSlotsSize(s);
    assert |m.Keys| == |StackSlots(s)| + |s.values.Keys|;
  }

  lemma DenotesFits(m: map<nat, Entry>, t: Tree, s: Stacks, a: Attr)
    requires Denotes(m, t, s) && (a.asValue ==> a.id != REGION_KEY && a.id != UNALIGNED_KEY)
    ensures Fits(m, Key(a)) <==> HasSlot(s, a)
  {
    DenotesSize(m, t, s);
  }

  lemma DenotesExtends(m: map<nat, Entry>, t: Tree, t': Tree, s: Stacks)
    requires Denotes(m, t, s) && Extends(t, t')
    ensures Denotes(m, t', s)
  {}

  /** The node stands for the nonempty stack p. */
  ghost predicate StackNode(t: Tree, node: Ptr, p: Path) {
    && node.At? && node in t.nodes && node in t.path && t.path[node] == p && p != []
    && forall l | l in p :: l.attr != NAME_ATTR
  }

  lemma DenotesStack(m: map<nat, Entry>, t: Tree, s: Stacks, a: Attr, node: Ptr, p: Path)
    requires Denotes(m, t, s) && !a.asValue && StackNode(t, node, p)
    ensures Denotes(m[Key(a) := Reference(node.id)], t, WithStack(s, a, p))
  {}

  lemma DenotesNoStack(m: map<nat, Entry>, t: Tree, s: Stacks, a: Attr)
    requires Denotes(m, t, s) && !a.asValue
    ensures Denotes(m - {Key(a)}, t, WithStack(s, a, []))
  {}

  lemma DenotesValue(m: map<nat, Entry>, t: Tree, s: Stacks, a: Attr, v: Variant)
    requires Denotes(m, t, s) && a.asValue && a.id != REGION_KEY && a.id != UNALIGNED_KEY
    ensures Denotes(m[a.id := Immediate(a.id, v)], t, s.(values := s.values[a.id := v]))
  {}

  lemma DenotesNoValue(m: map<nat, Entry>, t: Tree, s: Stacks, a: Attr, key: nat)
    requires Denotes(m, t, s) && key == a.id && a.id != REGION_KEY && a.id != UNALIGNED_KEY
    ensures Denotes(m - {key}, t, WithoutValue(s, a)) && WithoutValue(s, a).error == s.error
  {}

  /** The reserved slot keys are type nodes of the tree, never attributes. */
  ghost predicate KeysReserved(t: Tree) {
    forall k: Id | k == REGION_KEY || k == UNALIGNED_KEY ::
      At(k) in t.nodes && At(k) in t.path && t.nodes[At(k)].tag.attr == TYPE_ATTR
  }

  /** a is an attribute that users may annotate with: its id is that of an attribute node. */
  ghost predicate UserAttr(t: Tree, a: Attr) {
    && a.id != INV_ID && a.id != NAME_ATTR
    && At(a.id) in t.nodes && At(a.id) in t.path && t.nodes[At(a.id)].tag.attr == NAME_ATTR
  }

  lemma UserAttrKey(t: Tree, a: Attr)
    requires KeysReserved(t) && UserAttr(t, a)
    ensures a.id != REGION_KEY && a.id != UNALIGNED_KEY && Key(a) != INV_ID
  {}

  lemma StableUnderExtends(t: Tree, t': Tree, a: Attr)
    requires Extends(t, t') && KeysReserved(t) && UserAttr(t, a)
    ensures KeysReserved(t') && UserAttr(t', a)
  {}

  class ThreadData {
    const tree: MetadataTree
    const blackboard: Blackboard
    const allowOverlap: bool
    var stackError: bool
    ghost var stacks: Stacks

    ghost predicate Valid()
      reads this, tree, blackboard, blackboard.hashtable, blackboard.toc
    {
      && tree.Valid() && blackboard.Valid()
      && KeysReserved(tree.State())
      && Denotes(blackboard.Map(), tree.State(), stacks)
      && stackError == stacks.error
    }

    constructor (allowOverlap: bool)
      ensures Valid() && fresh(tree) && fresh(blackboard) && fresh(blackboard.hashtable) && fresh(blackboard.toc)
      ensures stacks == Stacks([], [], map[], false) && this.allowOverlap == allowOverlap
    {
      hide Ok, Rep, Booted, BootstrapNodes, KeysReserved;
      tree := new MetadataTree();
      blackboard := new Blackboard();
      this.allowOverlap, stackError := allowOverlap, false;
      stacks := Stacks([], [], map[], false);
      new;
      BootedReserves(tree.State());
    }

    /** Makes a node the new stack of the attribute; dropped when the blackboard has no free slot. */
    method StoreNode(a: Attr, node: Ptr, ghost p: Path)
      requires Valid() && UserAttr(tree.State(), a) && !a.asValue && StackNode(tree.State(), node, p)
      modifies this`stacks, blackboard, blackboard.hashtable, blackboard.toc
      ensures Valid()
      ensures stacks == if HasSlot(old(stacks), a) then WithStack(old(stacks), a, p) else old(stacks)
    {
      hide Denotes, KeysReserved, UserAttr, Ok, Rep, HasSlot, SlotDenotes, Placed, Contents;
      ghost var m := blackboard.Map();
      UserAttrKey(tree.State(), a);
      DenotesFits(m, tree.State(), stacks, a);
      DenotesStack(m, tree.State(), stacks, a, node, p);
      blackboard.Set(Key(a), Reference(node.id), !a.hidden);
      if HasSlot(stacks, a) {
        stacks := WithStack(stacks, a, p);
      }
    }

    /** Stores an attribute's value directly. */
    method StoreValue(a: Attr, v: Variant)
      requires Valid() && UserAttr(tree.State(), a) && a.asValue
      modifies this`stacks, blackboard, blackboard.hashtable, blackboard.toc
      ensures Valid()
      ensures stacks == if HasSlot(old(stacks), a) then old(stacks).(values := old(stacks).values[a.id := v]) else old(stacks)
    {
      hide Denotes, KeysReserved, UserAttr, Ok, Rep, HasSlot, SlotDenotes, Placed, Contents;
      ghost var m := blackboard.Map();
      UserAttrKey(tree.State(), a);
      DenotesFits(m, tree.State(), stacks, a);
      DenotesValue(m, tree.State(), stacks, a, v);
      blackboard.Set(a.id, Immediate(a.id, v), !a.hidden);
      if HasSlot(stacks, a) {
        stacks := stacks.(values := stacks.values[a.id := v]);
      }
    }

    method DropStack(a: Attr)
      requires Valid() && UserAttr(tree.State(), a) && !a.asValue
      modifies this`stacks, blackboard, blackboard.hashtable, blackboard.toc
      ensures Valid() && stacks == WithStack(old(stacks), a, [])
    {
      hide Denotes, KeysReserved, UserAttr, Ok, Rep, SlotDenotes, Key, Contents;
      UserAttrKey(tree.State(), a);
      DenotesNoStack(blackboard.Map(), tree.State(), stacks, a);
      blackboard.Unset(Key(a));
      stacks := WithStack(stacks, a, []);
    }

    method DropValue(a: Attr)
      requires Valid() && UserAttr(tree.State(), a) && a.asValue
      modifies this`stacks, blackboard, blackboard.hashtable, blackboard.toc
      ensures Valid() && stacks == WithoutValue(old(stacks), a)
    {
      hide Denotes, KeysReserved, UserAttr, Ok, Rep, SlotDenotes, Contents, Key, WithoutValue;
      UserAttrKey(tree.State(), a);
      UserAttrNotName(tree.State(), a);
      var key: nat := a.id;
      DenotesNoValue(blackboard.Map(), tree.State(), stacks, a, key);
      blackboard.Unset(key);
      stacks := WithoutValue(stacks, a);
    }

    /** The entry's node for the attribute nearest to the top of its path (`Entry::get`). */
    method EntryGet(e: Entry, a: Attr) returns (found: Entry)
      requires Valid() && UserAttr(tree.State(), a)
      requires e.Reference? ==> At(e.node) in tree.nodes && At(e.node) in tree.path && tree.nodes[At(e.node)].tag.attr != NAME_ATTR
      ensures e.NoEntry? ==> found.NoEntry?
      ensures e.Immediate? ==> found == if e.attr == a.id then e else NoEntry
      ensures e.Reference? ==> var p := tree.path[At(e.node)];
        if Mentions(p, a.id) then found.Reference? && At(found.node) in tree.nodes && tree.nodes[At(found.node)].tag == Label(a.id, Innermost(p, a.id))
        else found.NoEntry?
    {
      hide Denotes, KeysReserved, Ok, Rep;
      if e.NoEntry? {
        return NoEntry;
      }
      if e.Immediate? {
        return if e.attr == a.id then e else NoEntry;
      }
      ghost var t := tree.State();
      RootFacts(t);
      ghost var p := t.path[At(e.node)];
      var node := At(e.node);
      while node != Root
        invariant node in tree.nodes && t == tree.State()
        invariant t.path[node] <= p && !Mentions(p[|t.path[node]|..], a.id)
        decreases |t.path[node]|
      {
        ParentFacts(t, node);
        SplitAbove(p, t.path[node], a.id);
        if tree.nodes[node].tag.attr == a.id {
          return Reference(node.id);
        }
        node := tree.nodes[node].parent;
      }
      assert p[0..] == p;
      return NoEntry;
    }

    ghost predicate CanCreate(n: int)
      reads tree
    {
      Capacity(tree.State()) >= n
    }

    /** The node held by the attribute's stack slot, null for the empty stack. */
    method SlotNode(a: Attr) returns (node: Ptr)
      requires Valid() && !a.asValue
      ensures StackOf(stacks, a) == [] ==> node == Null
      ensures StackOf(stacks, a) != [] ==>
                && node.At? && node in tree.nodes && node in tree.path && tree.path[node] == StackOf(stacks, a)
                && forall l | l in StackOf(stacks, a) :: l.attr != NAME_ATTR
    {
      hide KeysReserved, Ok, Rep;
      var e := blackboard.Get(Key(a));
      return if e.Reference? then At(e.node) else Null;
    }

    /** Tree growth alone leaves the thread's meaning unchanged. */
    lemma AfterGrowth(t: Tree, a: Attr)
      requires tree.Valid() && blackboard.Valid() && stackError == stacks.error
      requires Extends(t, tree.State()) && KeysReserved(t) && UserAttr(t, a) && Denotes(blackboard.Map(), t, stacks)
      ensures Valid() && UserAttr(tree.State(), a)
    {
      DenotesExtends(blackboard.Map(), t, tree.State(), stacks);
      StableUnderExtends(t, tree.State(), a);
    }

    method Begin(a: Attr, v: Variant)
      requires Valid() && UserAttr(tree.State(), a) && CanCreate(1)
      modifies this, tree, blackboard, blackboard.hashtable, blackboard.toc
      ensures Valid() && stacks == Step(old(stacks), allowOverlap, Op.Begin(a, v))
      ensures Extends(old(tree.State()), tree.State()) && CanCreate(old(Capacity(tree.State())) - 1)
    {
      hide Denotes, KeysReserved, UserAttr, Ok, Rep, Extends, SlotDenotes, HasSlot;
      ghost var t := tree.State();
      ExtendsItself(t);
      if stackError {
        return;
      }
      if a.asValue {
        StoreValue(a, v);
      } else {
        UserAttrNotName(t, a);
        RootFacts(t);
        var parent := SlotNode(a);
        var node := tree.GetChild(Label(a.id, v), parent);
        AfterGrowth(t, a);
        NodeHasId(tree.State(), node);
        StoreNode(a, node, StackOf(stacks, a) + [Label(a.id, v)]);
      }
    }

    method Set(a: Attr, v: Variant)
      requires Valid() && UserAttr(tree.State(), a) && CanCreate(|StackOf(stacks, a)| + 1)
      modifies this, tree, blackboard, blackboard.hashtable, blackboard.toc
      ensures Valid() && stacks == Step(old(stacks), allowOverlap, Op.Set(a, v))
      ensures Extends(old(tree.State()), tree.State())
      ensures CanCreate(old(Capacity(tree.State()) - |StackOf(stacks, a)|) - 1)
    {
      hide Denotes, KeysReserved, UserAttr, Ok, Rep, Extends, SlotDenotes, HasSlot;
      ghost var t := tree.State();
      ExtendsItself(t);
      if stackError {
        return;
      }
      if a.asValue {
        StoreValue(a, v);
      } else {
        SetStack(a, v);
      }
    }

    method SetStack(a: Attr, v: Variant)
      requires Valid() && UserAttr(tree.State(), a) && !a.asValue && CanCreate(|StackOf(stacks, a)| + 1)
      modifies this, tree, blackboard, blackboard.hashtable, blackboard.toc
      ensures Valid() && Extends(old(tree.State()), tree.State())
      ensures stacks == if HasSlot(old(stacks), a)
                        then WithStack(old(stacks), a, RemoveInnermost(StackOf(old(stacks), a), a.id) + [Label(a.id, v)])
                        else old(stacks)
      ensures CanCreate(old(Capacity(tree.State()) - |StackOf(stacks, a)|) - 1)
    {
      hide Denotes, KeysReserved, UserAttr, Ok, Rep, Extends, SlotDenotes, HasSlot, Contents;
      ghost var t := tree.State();
      UserAttrNotName(t, a);
      RootFacts(t);
      var start := SlotNode(a);
      RemoveKeepsLabels(StackOf(stacks, a), a.id);
      var node := tree.ReplaceFirstInPath(start, Label(a.id, v));
      AfterGrowth(t, a);
      NodeHasId(tree.State(), node);
      StoreNode(a, node, RemoveInnermost(StackOf(stacks, a), a.id) + [Label(a.id, v)]);
    }

    /** The merged and the attribute's own entry, both empty when an end of the attribute is to be rejected. */
    method LoadCurrentEntry(a: Attr) returns (merged: Entry, entry: Entry, value: Variant)
      requires Valid() && UserAttr(tree.State(), a)
      ensures !Accepts(stacks, a, allowOverlap) ==> entry.NoEntry?
      ensures Accepts(stacks, a, allowOverlap) ==>
                && !entry.NoEntry? && value == CurrentValue(stacks, a, allowOverlap)
                && (!a.asValue ==> merged.Reference? && StackNode(tree.State(), At(merged.node), StackOf(stacks, a)))
    {
      hide KeysReserved, Ok, Rep;
      UserAttrKey(tree.State(), a);
      merged := blackboard.Get(Key(a));
      if merged.Reference? {
        StackNodeTop(tree.State(), At(merged.node), StackOf(stacks, a));
      }
      entry := EntryGet(merged, a);
      value := match entry
        case NoEntry => Empty
        case Immediate(_, v) => v
        case Reference(n) => tree.nodes[At(n)].tag.data;
      var top := match merged
        case NoEntry => INV_ID
        case Immediate(id, _) => id
        case Reference(n) => tree.nodes[At(n)].tag.attr;
      if top != a.id {
        if entry.NoEntry? {
          return NoEntry, NoEntry, Empty;
        }
        if Key(a) != UNALIGNED_KEY && !allowOverlap {
          return NoEntry, NoEntry, Empty;
        }
      }
    }

    /** Takes the attribute's innermost label off its stack, or drops its value. */
    method HandleEnd(a: Attr, merged: Entry)
      requires Valid() && UserAttr(tree.State(), a) && CanCreate(|StackOf(stacks, a)|) && !stackError
      requires !a.asValue ==> merged.Reference? && StackNode(tree.State(), At(merged.node), StackOf(stacks, a))
      modifies this`stacks, tree, blackboard, blackboard.hashtable, blackboard.toc
      ensures Valid() && stacks == Ended(old(stacks), a)
      ensures Extends(old(tree.State()), tree.State())
      ensures CanCreate(old(Capacity(tree.State()) - |StackOf(stacks, a)|))
    {
      hide Denotes, KeysReserved, UserAttr, Ok, Rep, Extends, SlotDenotes;
      ghost var t := tree.State();
      ExtendsItself(t);
      if a.asValue {
        DropValue(a);
      } else {
        UserAttrNotName(t, a);
        RemoveKeepsLabels(StackOf(stacks, a), a.id);
        var node := tree.RemoveFirstInPath(At(merged.node), a.id);
        AfterGrowth(t, a);
        RootOrNot(tree.State(), node);
        if node == Root {
          DropStack(a);
        } else {
          StoreNode(a, node, RemoveInnermost(StackOf(stacks, a), a.id));
        }
      }
    }

    method RaiseStackError()
      requires Valid()
      modifies this
      ensures Valid() && stacks == old(stacks).(error := true)
    {
      hide Denotes, KeysReserved, Ok, Rep;
      DenotesError(blackboard.Map(), tree.State(), stacks);
      stackError := true;
      stacks := stacks.(error := true);
    }

    method End(a: Attr)
      requires Valid() && UserAttr(tree.State(), a) && CanCreate(|StackOf(stacks, a)|)
      modifies this, tree, blackboard, blackboard.hashtable, blackboard.toc
      ensures Valid() && stacks == Step(old(stacks), allowOverlap, Op.End(a))
      ensures Extends(old(tree.State()), tree.State())
      ensures CanCreate(old(Capacity(tree.State()) - |StackOf(stacks, a)|))
    {
      hide Denotes, KeysReserved, UserAttr, Ok, Rep, Extends, SlotDenotes, Accepts, StackNode, CurrentValue;
      ExtendsItself(tree.State());
      if stackError {
        return;
      }
      var merged, entry, current := LoadCurrentEntry(a);
      if entry.NoEntry? {
        RaiseStackError();
        return;
      }
      HandleEnd(a, merged);
    }

    method EndWithValueCheck(a: Attr, v: Variant)
      requires Valid() && UserAttr(tree.State(), a) && CanCreate(|StackOf(stacks, a)|)
      modifies this, tree, blackboard, blackboard.hashtable, blackboard.toc
      ensures Valid() && stacks == Step(old(stacks), allowOverlap, Op.EndWithValue(a, v))
      ensures Extends(old(tree.State()), tree.State())
      ensures CanCreate(old(Capacity(tree.State()) - |StackOf(stacks, a)|))
    {
      hide Denotes, KeysReserved, UserAttr, Ok, Rep, Extends, SlotDenotes, Accepts, StackNode, CurrentValue;
      ExtendsItself(tree.State());
      if stackError {
        return;
      }
      var merged, entry, current := LoadCurrentEntry(a);
      if entry.NoEntry? || v != current {
        RaiseStackError();
        return;
      }
      HandleEnd(a, merged);
    }
  }

  lemma DenotesError(m: map<nat, Entry>, t: Tree, s: Stacks)
    requires Denotes(m, t, s)
    ensures Denotes(m, t, s.(error := true))
  {}

  lemma RootOrNot(t: Tree, p: Ptr)
    requires Ok(t) && p in t.nodes
    ensures p in t.path && (p == Root <==> t.path[p] == []) && (p == Root || p.At?)
  {
    hide LinksOk;
  }

  lemma StackNodeTop(t: Tree, node: Ptr, p: Path)
    requires Ok(t) && StackNode(t, node, p)
    ensures node != Root && t.nodes[node].tag == p[|p| - 1]
  {
    hide LinksOk, BlocksOk;
    ParentFacts(t, node);
  }

  lemma {:induction false} RemoveKeepsLabels(p: Path, a: Id)
    ensures forall l | l in RemoveInnermost(p, a) :: l in p
  {
    if p != [] { RemoveKeepsLabels(p[..|p| - 1], a); }
  }

  lemma NodeHasId(t: Tree, p: Ptr)
    requires Ok(t) && p in t.nodes && p != Root
    ensures p.At?
  {
    hide PathsOk, LinksOk;
  }

  lemma UserAttrNotName(t: Tree, a: Attr)
    requires UserAttr(t, a)
    ensures a.id != NAME_ATTR && a.id != INV_ID
  {}

  // If no label above q mentions the attribute, the last label of q decides.
  lemma SplitAbove(p: Path, q: Path, a: Id)
    requires q <= p && q != [] && !Mentions(p[|q|..], a)
    ensures q[|q| - 1].attr == a ==> Mentions(p, a) && Innermost(p, a) == q[|q| - 1].data
    ensures q[|q| - 1].attr != a ==> !Mentions(p[|q| - 1..], a)
    decreases |p|
  {
    if q[|q| - 1].attr == a {
      assert p[|q| - 1].attr == a;
      if |q| < |p| {
        var p' := p[..|p| - 1];
        assert p[|q|..][|p| - |q| - 1] == p[|p| - 1];
        assert p'[|q|..] == p[|q|..][..|p| - |q| - 1];
        SplitAbove(p', q, a);
      }
    } else {
      assert p[|q| - 1..] == [q[|q| - 1]] + p[|q|..];
    }
  }

  lemma BootedReserves(t: Tree)
    requires Ok(t) && Booted(t, BootstrapNodes(), 12)
    ensures KeysReserved(t)
  {
    hide PathsOk, LinksOk, BlocksOk, Ok;
    RootFacts(t);
    assert BootstrapNodes()[1].tag.attr == TYPE_ATTR && BootstrapNodes()[2].tag.attr == TYPE_ATTR;
  }

  // --- Whole runs on the real structures

  /** The stacks determine the blackboard: equal stacks are held by the identical nodes. */
  lemma SameStacksSameBoard(m: map<nat, Entry>, t: Tree, m': map<nat, Entry>, t': Tree, s: Stacks)
    requires Ok(t') && Extends(t, t') && Denotes(m, t, s) && Denotes(m', t', s)
    ensures m == m'
  {
    hide Ok, Extends, SlotDenotes, StackSlots, Denotes;
    DenotesExtends(m, t, t', s);
    DenotesKeys(m, t, s);
    DenotesKeys(m', t', s);
    forall k | k in m
      ensures m[k] == m'[k]
    {
      EntriesSame(m, m', t', s, k);
    }
  }

  lemma EntriesSame(m: map<nat, Entry>, m': map<nat, Entry>, t: Tree, s: Stacks, k: nat)
    requires Ok(t) && Denotes(m, t, s) && Denotes(m', t, s) && k in m && k in m'
    ensures m[k] == m'[k]
  {
    hide Ok, SlotDenotes;
    if k == REGION_KEY {
      SlotsSame(m, m', t, k, s.region);
    } else if k == UNALIGNED_KEY {
      SlotsSame(m, m', t, k, s.unaligned);
    }
  }

  lemma SlotsSame(m: map<nat, Entry>, m': map<nat, Entry>, t: Tree, key: Id, p: Path)
    requires Ok(t) && SlotDenotes(m, t, key, p) && SlotDenotes(m', t, key, p) && key in m && key in m'
    ensures m[key] == m'[key]
  {
    hide Ok;
    SameInTree(t, At(m[key].node), At(m'[key].node));
  }

  lemma StepGrowth(s: Stacks, overlap: bool, op: Op, n: nat)
    requires |s.region| <= n && |s.unaligned| <= n
    ensures |Step(s, overlap, op).region| <= n + 1 && |Step(s, overlap, op).unaligned| <= n + 1
  {
    RemoveShrinks(s.region, op.attr.id);
    RemoveShrinks(s.unaligned, op.attr.id);
  }

  lemma {:induction false} RemoveShrinks(p: Path, a: Id)
    ensures |RemoveInnermost(p, a)| <= |p|
  {
    if p != [] { RemoveShrinks(p[..|p| - 1], a); }
  }

  // One call of at most k new nodes, out of a budget of n calls.
  lemma SpendOne(n: int, k: int)
    requires n > 0 && k >= 0
    ensures n * k - k == (n - 1) * k && n * k >= k
  {}

  /** Every run of annotation calls takes the stacks through exactly the specified steps, as long
      as the tree has room for the nodes; existing nodes stay as they are. */
  method Run(d: ThreadData, ops: seq<Op>, ghost depth: nat)
    requires d.Valid() && |d.stacks.region| <= depth && |d.stacks.unaligned| <= depth
    requires forall op | op in ops :: UserAttr(d.tree.State(), op.attr)
    requires d.CanCreate(|ops| * (depth + |ops| + 1))
    modifies d, d.tree, d.blackboard, d.blackboard.hashtable, d.blackboard.toc
    ensures d.Valid() && d.stacks == Steps(old(d.stacks), d.allowOverlap, ops)
    ensures Extends(old(d.tree.State()), d.tree.State())
  {
    hide ThreadData.Valid, UserAttr, Extends, Step, Steps, Ok;
    ghost var t, cost := d.tree.State(), depth + |ops| + 1;
    TreeExtendsItself(d);
    NoSteps(d.stacks, d.allowOverlap, ops);
    for i := 0 to |ops|
      invariant d.Valid() && d.stacks == Steps(old(d.stacks), d.allowOverlap, ops[..i])
      invariant Extends(t, d.tree.State()) && d.CanCreate((|ops| - i) * cost)
      invariant |d.stacks.region| <= depth + i && |d.stacks.unaligned| <= depth + i
      invariant forall op | op in ops :: UserAttr(d.tree.State(), op.attr)
    {
      NextStep(old(d.stacks), d.allowOverlap, ops, i);
      SpendOne(|ops| - i, cost);
      StepGrowth(d.stacks, d.allowOverlap, ops[i], depth + i);
      RunOne(d, t, ops, ops[i], (|ops| - i) * cost, cost);
    }
    assert ops[..|ops|] == ops;
  }

  lemma TreeExtendsItself(d: ThreadData)
    requires d.Valid()
    ensures Extends(d.tree.State(), d.tree.State())
  {
    hide Ok, Denotes, Rep, Extends;
    ExtendsItself(d.tree.State());
  }

  lemma NoSteps(s: Stacks, overlap: bool, ops: seq<Op>)
    ensures Steps(s, overlap, ops[..0]) == s
  {
  }

  lemma NextStep(s: Stacks, overlap: bool, ops: seq<Op>, i: nat)
    requires i < |ops|
    ensures Steps(s, overlap, ops[..i + 1]) == Step(Steps(s, overlap, ops[..i]), overlap, ops[i])
  {
    hide Step;
    assert ops[..i + 1][..i] == ops[..i];
  }

  /** One call of the run. */
  method RunOne(d: ThreadData, ghost t0: Tree, ghost ops: seq<Op>, op: Op, ghost room: int, ghost cost: nat)
    requires d.Valid() && op in ops && forall o | o in ops :: UserAttr(d.tree.State(), o.attr)
    requires Extends(t0, d.tree.State()) && d.CanCreate(room) && room >= cost > |StackOf(d.stacks, op.attr)|
    modifies d, d.tree, d.blackboard, d.blackboard.hashtable, d.blackboard.toc
    ensures d.Valid() && d.stacks == Step(old(d.stacks), d.allowOverlap, op)
    ensures Extends(t0, d.tree.State()) && d.CanCreate(room - cost)
    ensures forall o | o in ops :: UserAttr(d.tree.State(), o.attr)
  {
    hide Denotes, KeysReserved, UserAttr, Ok, Rep, Extends, SlotDenotes, Step;
    ghost var t := d.tree.State();
    match op {
      case Begin(a, v) => d.Begin(a, v);
      case End(a) => d.End(a);
      case EndWithValue(a, v) => d.EndWithValueCheck(a, v);
      case Set(a, v) => d.Set(a, v);
    }
    ExtendsTransitive(t0, t, d.tree.State());
    UserAttrsStable(t, d.tree.State(), ops);
  }

  lemma UserAttrsStable(t: Tree, t': Tree, ops: seq<Op>)
    requires Extends(t, t') && forall o | o in ops :: UserAttr(t, o.attr)
    ensures forall o | o in ops :: UserAttr(t', o.attr)
  {}

  /** A properly nested run leaves every blackboard slot as it was, down to the identical tree nodes. */
  method RunNested(d: ThreadData, n: Nest, ghost depth: nat)
    requires d.Valid() && !d.stackError && |d.stacks.region| <= depth && |d.stacks.unaligned| <= depth
    requires ByReference(n) && |d.stacks.values| + 2 <= CAPACITY
    requires forall op | op in Calls(n) :: UserAttr(d.tree.State(), op.attr)
    requires d.CanCreate(|Calls(n)| * (depth + |Calls(n)| + 1))
    modifies d, d.tree, d.blackboard, d.blackboard.hashtable, d.blackboard.toc
    ensures d.Valid() && d.stacks == old(d.stacks) && d.blackboard.Map() == old(d.blackboard.Map())
  {
    hide Denotes, KeysReserved, UserAttr, Ok, Rep, Extends, SlotDenotes, Step, Steps, Calls;
    ghost var m, t := d.blackboard.Map(), d.tree.State();
    NestingRestores(d.stacks, d.allowOverlap, n);
    Run(d, Calls(n), depth);
    SameStacksSameBoard(m, t, d.blackboard.Map(), d.tree.State(), d.stacks);
  }
}
