/** The aggregator: a vector of entries found through a chained hash table, updated record by record.
    Its entries hold, for every key some record touches, the state the stream gives that key. */
module Aggregators {

  import opened Common
  import opened AggregationKeys
  import opened AggregationKernels
  import opened Aggregations

  const BUCKETS: nat := 4096

  datatype AggregateEntry = AggregateEntry(key: Record, kernels: seq<Acc>, next: nat)

  // The ids of the context tree nodes and attributes in the key's entries.
  type NodeIds = Entry -> nat

  function HashKey(ids: NodeIds, key: Record): nat {
    if |key| == 0 then 0
    else ids(key[0]) + (if key[0].Imm? then ToUint(key[0].item.value) else 0) + HashKey(ids, key[1..])
  }

  function Bucket(ids: NodeIds, key: Record): (h: nat)
    ensures h < BUCKETS
  {
    HashKey(ids, key) % BUCKETS
  }

  // ----- Chains -----

  /** The last entry before n in bucket h, or 0. */
  function Latest(ids: NodeIds, es: seq<AggregateEntry>, h: nat, n: nat): (j: nat)
    requires n <= |es|
    ensures j < n || j == 0
  {
    if n <= 1 then 0 else if Bucket(ids, es[n - 1].key) == h then n - 1 else Latest(ids, es, h, n - 1)
  }

  ghost predicate ChainsOk(ids: NodeIds, es: seq<AggregateEntry>, table: seq<nat>) {
    && |es| >= 1 && |table| == BUCKETS
    && (forall h: nat | h < BUCKETS :: table[h] == Latest(ids, es, h, |es|))
    && (forall j: nat | 1 <= j < |es| :: es[j].next == Latest(ids, es, Bucket(ids, es[j].key), j))
  }

  lemma {:induction false} LatestSkips(ids: NodeIds, es: seq<AggregateEntry>, h: nat, n: nat, j: nat)
    requires n <= |es| && Latest(ids, es, h, n) < j < n
    ensures Bucket(ids, es[j].key) != h
  {
    if j < n - 1 { LatestSkips(ids, es, h, n - 1, j); }
  }

  lemma {:induction false} LatestIn(ids: NodeIds, es: seq<AggregateEntry>, h: nat, n: nat)
    requires n <= |es| && Latest(ids, es, h, n) > 0
    ensures Bucket(ids, es[Latest(ids, es, h, n)].key) == h
  {
    if Bucket(ids, es[n - 1].key) != h { LatestIn(ids, es, h, n - 1); }
  }

  lemma {:induction false} LatestSame(ids: NodeIds, es: seq<AggregateEntry>, fs: seq<AggregateEntry>, h: nat, n: nat)
    requires n <= |es| && n <= |fs| && forall j: nat | 1 <= j < n :: es[j].key == fs[j].key
    ensures Latest(ids, es, h, n) == Latest(ids, fs, h, n)
  {
    if n > 1 { LatestSame(ids, es, fs, h, n - 1); }
  }

  lemma LatestSnoc(ids: NodeIds, es: seq<AggregateEntry>, e: AggregateEntry, h: nat)
    requires |es| >= 1
    ensures Latest(ids, es + [e], h, |es| + 1) == if Bucket(ids, e.key) == h then |es| else Latest(ids, es, h, |es|)
  {
    hide Bucket;
    LatestSame(ids, es, es + [e], h, |es|);
  }

  /** Putting a new entry at the front of its chain keeps the chains. */
  lemma ChainsGrow(ids: NodeIds, es: seq<AggregateEntry>, table: seq<nat>, e: AggregateEntry)
    requires ChainsOk(ids, es, table) && e.next == table[Bucket(ids, e.key)]
    ensures ChainsOk(ids, es + [e], table[Bucket(ids, e.key) := |es|])
  {
    hide Bucket, Latest;
    var fs := es + [e];
    forall h: nat | h < BUCKETS
      ensures table[Bucket(ids, e.key) := |es|][h] == Latest(ids, fs, h, |fs|)
    {
      LatestSnoc(ids, es, e, h);
    }
    forall j: nat | 1 <= j < |fs|
      ensures fs[j].next == Latest(ids, fs, Bucket(ids, fs[j].key), j)
    {
      LatestSame(ids, es, fs, Bucket(ids, fs[j].key), j);
      assert j < |es| ==> fs[j] == es[j];
    }
  }

  lemma ChainsUpdate(ids: NodeIds, es: seq<AggregateEntry>, table: seq<nat>, x: nat, kernels: seq<Acc>)
    requires ChainsOk(ids, es, table) && x < |es|
    ensures ChainsOk(ids, es[x := es[x].(kernels := kernels)], table)
  {
    hide Bucket, Latest;
    var fs := es[x := es[x].(kernels := kernels)];
    forall h: nat | h < BUCKETS ensures Latest(ids, es, h, |es|) == Latest(ids, fs, h, |fs|) {
      LatestSame(ids, es, fs, h, |es|);
    }
    forall j: nat | 1 <= j < |fs| ensures fs[j].next == Latest(ids, fs, Bucket(ids, fs[j].key), j) {
      LatestSame(ids, es, fs, Bucket(ids, fs[j].key), j);
    }
  }

  // ----- Keys of the entries -----

  ghost predicate KeysOk(c: Config, ord: Order, keys: seq<Key>, es: seq<AggregateEntry>) {
    && |es| == |keys| + 1 && Distinct(keys)
    && (forall j: nat | j < |keys| :: Canonical(c, keys[j]) && es[j + 1].key == KeyEntries(Rekey(ord, keys[j])))
  }

  lemma SameKey(c: Config, ord: Order, k: Key, k': Key)
    requires Canonical(c, k) && Canonical(c, k')
    ensures KeyEntries(Rekey(ord, k)) == KeyEntries(Rekey(ord, k')) <==> k == k'
  {
    hide KeyEntries, Rekey, WfKey;
    RekeyBack(c, ord, k);
    RekeyBack(c, ord, k');
    KeyEntriesInjective(c.g, Rekey(ord, k), Rekey(ord, k'));
  }

  // ----- The key of a record -----

  lemma {:induction false} UnravelSnoc(g: Grouping, rec: Record, e: Entry)
    ensures Unravel(g, rec + [e]) == Unravel(g, rec) + if e.Ref? then Reverse(Filter(e.path, Picked(g))) else []
  {
    if |rec| == 0 {
      assert rec + [e] == [e] && [e][1..] == [];
    } else {
      UnravelSnoc(g, rec[1..], e);
      assert (rec + [e])[1..] == rec[1..] + [e];
    }
  }

  lemma FilterStep(g: Grouping, path: seq<Label>, i: nat)
    requires i < |path|
    ensures Reverse(Filter(path[i..], Picked(g)))
         == Reverse(Filter(path[i + 1..], Picked(g))) + if Picks(g, path[i].attr) then [path[i]] else []
  {
    assert path[i..][1..] == path[i + 1..];
  }

  lemma NoKeyParts(g: Grouping)
    ensures Unravel(g, []) == [] && Filter(Items([]), KeyAttr(g)) == []
  {
  }

  lemma KeyItemsSnoc(g: Grouping, rec: Record, e: Entry)
    ensures Filter(Items(rec + [e]), KeyAttr(g))
         == Filter(Items(rec), KeyAttr(g)) + if e.Imm? && IsKey(g, e.item.attr) then [e.item] else []
  {
    ItemsJoin(rec, [e]);
    assert [e][1..] == [];
    FilterJoin(Items(rec), Items([e]), KeyAttr(g));
    if e.Imm? {
      assert Items([e]) == [e.item] && [e.item][1..] == [];
    }
  }

  /** Walks each reference up to the root and keeps the labels and values that belong to the key. */
  method CollectKey(g: Grouping, rec: Record) returns (nodes: seq<Label>, imms: seq<Item>)
    ensures nodes == Unravel(g, rec) && imms == Filter(Items(rec), KeyAttr(g))
  {
    hide Unravel, Items, Filter;
    nodes, imms := [], [];
    assert rec[..0] == [];
    NoKeyParts(g);
    for r := 0 to |rec|
      invariant nodes == Unravel(g, rec[..r]) && imms == Filter(Items(rec[..r]), KeyAttr(g))
    {
      assert rec[..r + 1] == rec[..r] + [rec[r]];
      UnravelSnoc(g, rec[..r], rec[r]);
      KeyItemsSnoc(g, rec[..r], rec[r]);
      if rec[r].Ref? {
        nodes := WalkUp(g, rec[r].path, nodes);
      } else {
        if IsKey(g, rec[r].item.attr) { imms := imms + [rec[r].item]; }
      }
    }
    assert rec[..|rec|] == rec;
  }

  method WalkUp(g: Grouping, path: seq<Label>, before: seq<Label>) returns (nodes: seq<Label>)
    ensures nodes == before + Reverse(Filter(path, Picked(g)))
  {
    nodes := before;
    var i: nat := |path|;
    while i > 0
      invariant i <= |path| && nodes == before + Reverse(Filter(path[i..], Picked(g)))
    {
      i := i - 1;
      FilterStep(g, path, i);
      if Picks(g, path[i].attr) { nodes := nodes + [path[i]]; }
    }
    assert path[0..] == path;
  }

  /** The record's key in this database's numbering. */
  method MakeKey(g: Grouping, ord: Order, rec: Record) returns (k: Key)
    requires Injective(ord)
    ensures k == Rekey(ord, KeyOf(g, Plain(), rec)) && WfKey(g, k)
  {
    hide Unravel, Filter, StableSort, Items;
    var nodes, imms := CollectKey(g, rec);
    k := Key(Filter(nodes, NestedAttr(g)), StableSort(ord, Filter(nodes, OtherAttr(g))), StableSort(ord, imms));
    KeyOfRenumbered(g, Plain(), ord, rec);
    KeyOfWf(g, ord, rec);
  }

  // ----- The state while a record is processed -----

  /** The state of a kernel that may not know its target. */
  function Seen(c: Config, known: seq<bool>, i: nat, rs: seq<Record>, key: Key): Acc
    requires i < |c.kernels| && |known| == |c.kernels|
  {
    if Active(c.kernels[i], known[i]) then StateAt(c, i, rs, key) else ZERO
  }

  // Kernels before n have seen the record rec, and kernel n has at the keys less than p levels up.
  ghost function Partial(c: Config, known: seq<bool>, rs: seq<Record>, rec: Record, n: nat, p: nat, key: Key, i: nat): Acc
    requires i < |c.kernels| && |known| == |c.kernels|
  {
    if !Active(c.kernels[i], known[i]) then ZERO
    else if i < n || (i == n && |KeyIn(c, rec).nested| - |key.nested| < p) then
      Effect(c, i, StateAt(c, i, rs, key), rec, key)
    else StateAt(c, i, rs, key)
  }

  ghost predicate KernelsOk(c: Config, known: seq<bool>, rs: seq<Record>, rec: Record, n: nat, p: nat,
                            key: Key, kernels: seq<Acc>)
    requires |known| == |c.kernels|
  {
    |kernels| == |c.kernels| && forall i: nat | i < |kernels| :: kernels[i] == Partial(c, known, rs, rec, n, p, key, i)
  }

  ghost predicate StatesOk(c: Config, known: seq<bool>, rs: seq<Record>, rec: Record, n: nat, p: nat,
                           keys: seq<Key>, es: seq<AggregateEntry>)
    requires |known| == |c.kernels|
  {
    |es| == |keys| + 1 && forall j: nat | j < |keys| :: KernelsOk(c, known, rs, rec, n, p, keys[j], es[j + 1].kernels)
  }

  // The entries between two records.
  ghost predicate Settles(c: Config, known: seq<bool>, rs: seq<Record>, keys: seq<Key>, es: seq<AggregateEntry>)
    requires |known| == |c.kernels|
  {
    |es| == |keys| + 1 && forall j: nat | j < |keys| :: KernelsSeen(c, known, rs, keys[j], es[j + 1].kernels)
  }

  ghost predicate KernelsSeen(c: Config, known: seq<bool>, rs: seq<Record>, key: Key, kernels: seq<Acc>)
    requires |known| == |c.kernels|
  {
    |kernels| == |c.kernels| && forall i: nat | i < |kernels| :: kernels[i] == Seen(c, known, i, rs, key)
  }

  /** A record has no effect on a key that is not its own nor above it. */
  lemma NoEffect(c: Config, i: nat, s: Acc, rec: Record, key: Key)
    requires i < |c.kernels| && key != KeyIn(c, rec)
    requires !Above(key, KeyIn(c, rec)) || !c.kernels[i].inclusive
    ensures Effect(c, i, s, rec, key) == s
  {
  }

  lemma StatesStart(c: Config, known: seq<bool>, rs: seq<Record>, rec: Record, keys: seq<Key>, es: seq<AggregateEntry>)
    requires |known| == |c.kernels| && Settles(c, known, rs, keys, es)
    ensures StatesOk(c, known, rs, rec, 0, 0, keys, es)
  {
    hide KernelsSeen, KernelsOk;
    forall j: nat | j < |keys| ensures KernelsOk(c, known, rs, rec, 0, 0, keys[j], es[j + 1].kernels) {
      KernelsStart(c, known, rs, rec, keys[j], es[j + 1].kernels);
    }
  }

  lemma KernelsStart(c: Config, known: seq<bool>, rs: seq<Record>, rec: Record, key: Key, kernels: seq<Acc>)
    requires |known| == |c.kernels| && KernelsSeen(c, known, rs, key, kernels)
    ensures KernelsOk(c, known, rs, rec, 0, 0, key, kernels)
  {
    hide StateAt, KeyIn, Effect, Active;
    forall i: nat | i < |c.kernels|
      ensures kernels[i] == Partial(c, known, rs, rec, 0, 0, key, i)
    {
      if |KeyIn(c, rec).nested| < |key.nested| { NoEffect(c, i, StateAt(c, i, rs, key), rec, key); }
    }
  }

  lemma StatesEnd(c: Config, known: seq<bool>, rs: seq<Record>, rec: Record, keys: seq<Key>, es: seq<AggregateEntry>)
    requires |known| == |c.kernels| && StatesOk(c, known, rs, rec, |c.kernels|, 0, keys, es)
    ensures Settles(c, known, rs + [rec], keys, es)
  {
    hide KeyIn, Effect, Active;
    assert (rs + [rec])[..|rs|] == rs;
    forall j: nat | j < |keys|
      ensures KernelsSeen(c, known, rs + [rec], keys[j], es[j + 1].kernels)
    {
      assert KernelsOk(c, known, rs, rec, |c.kernels|, 0, keys[j], es[j + 1].kernels);
    }
  }

  lemma PartialElsewhere(c: Config, known: seq<bool>, rs: seq<Record>, rec: Record, n: nat, p: nat, key: Key, i: nat)
    requires |known| == |c.kernels| && i < |c.kernels|
    requires p <= |KeyIn(c, rec).nested| && (i == n ==> key != ParentKey(KeyIn(c, rec), p))
    ensures Partial(c, known, rs, rec, n, p + 1, key, i) == Partial(c, known, rs, rec, n, p, key, i)
  {
    hide StateAt, Effect, Active;
    var k := KeyIn(c, rec);
    if i == n && |k.nested| - |key.nested| == p {
      assert ParentKey(k, 0) == k by { assert k.nested[0..] == k.nested; }
      NoEffect(c, i, StateAt(c, i, rs, key), rec, key);
    }
  }

  lemma KernelsElsewhere(c: Config, known: seq<bool>, rs: seq<Record>, rec: Record, n: nat, p: nat,
                         key: Key, kernels: seq<Acc>)
    requires |known| == |c.kernels| && KernelsOk(c, known, rs, rec, n, p, key, kernels)
    requires p <= |KeyIn(c, rec).nested| && key != ParentKey(KeyIn(c, rec), p)
    ensures KernelsOk(c, known, rs, rec, n, p + 1, key, kernels)
  {
    hide Partial, KeyIn;
    forall i: nat | i < |c.kernels|
      ensures Partial(c, known, rs, rec, n, p + 1, key, i) == Partial(c, known, rs, rec, n, p, key, i)
    {
      PartialElsewhere(c, known, rs, rec, n, p, key, i);
    }
  }

  lemma KernelsHere(c: Config, known: seq<bool>, rs: seq<Record>, rec: Record, n: nat, p: nat,
                    key: Key, kernels: seq<Acc>, s: Acc)
    requires |known| == |c.kernels| && n < |c.kernels| && KernelsOk(c, known, rs, rec, n, p, key, kernels)
    requires p <= |KeyIn(c, rec).nested| && s == Partial(c, known, rs, rec, n, p + 1, key, n)
    ensures KernelsOk(c, known, rs, rec, n, p + 1, key, kernels[n := s])
  {
    hide Partial, KeyIn;
    forall i: nat | i < |c.kernels| && i != n
      ensures Partial(c, known, rs, rec, n, p + 1, key, i) == Partial(c, known, rs, rec, n, p, key, i)
    {
      PartialElsewhere(c, known, rs, rec, n, p, key, i);
    }
  }

  /** Updating kernel n at the key p levels up. */
  lemma StatesAdvance(c: Config, known: seq<bool>, rs: seq<Record>, rec: Record, n: nat, p: nat,
                      keys: seq<Key>, es: seq<AggregateEntry>, x: nat, s: Acc)
    requires |known| == |c.kernels| && n < |c.kernels| && Distinct(keys) && StatesOk(c, known, rs, rec, n, p, keys, es)
    requires 1 <= x < |es| && p <= |KeyIn(c, rec).nested| && keys[x - 1] == ParentKey(KeyIn(c, rec), p)
    requires s == Partial(c, known, rs, rec, n, p + 1, keys[x - 1], n)
    ensures |es[x].kernels| == |c.kernels|
    ensures StatesOk(c, known, rs, rec, n, p + 1, keys, es[x := es[x].(kernels := es[x].kernels[n := s])])
  {
    hide Partial, KeyIn, ParentKey;
    assert KernelsOk(c, known, rs, rec, n, p, keys[x - 1], es[x - 1 + 1].kernels);
    var fs := es[x := es[x].(kernels := es[x].kernels[n := s])];
    forall j: nat | j < |keys|
      ensures KernelsOk(c, known, rs, rec, n, p + 1, keys[j], fs[j + 1].kernels)
    {
      hide KernelsOk;
      if j + 1 == x {
        KernelsHere(c, known, rs, rec, n, p, keys[j], es[x].kernels, s);
      } else {
        KernelsElsewhere(c, known, rs, rec, n, p, keys[j], es[j + 1].kernels);
      }
    }
  }

  /** Kernel n is done once it has gone up all levels, or its own level if it is exclusive. */
  lemma StatesNext(c: Config, known: seq<bool>, rs: seq<Record>, rec: Record, n: nat, p: nat,
                   keys: seq<Key>, es: seq<AggregateEntry>)
    requires |known| == |c.kernels| && n < |c.kernels| && StatesOk(c, known, rs, rec, n, p, keys, es) && p >= 1
    requires p >= |KeyIn(c, rec).nested| || !c.kernels[n].inclusive
    ensures StatesOk(c, known, rs, rec, n + 1, 0, keys, es)
  {
    hide Effect, StateAt, KeyIn, Active;
    forall j: nat | j < |keys|
      ensures KernelsOk(c, known, rs, rec, n + 1, 0, keys[j], es[j + 1].kernels)
    {
      assert KernelsOk(c, known, rs, rec, n, p, keys[j], es[j + 1].kernels);
      forall i: nat | i < |c.kernels|
        ensures Partial(c, known, rs, rec, n + 1, 0, keys[j], i) == Partial(c, known, rs, rec, n, p, keys[j], i)
      {
        PartialNext(c, known, rs, rec, n, p, keys[j], i);
      }
    }
  }

  lemma PartialNext(c: Config, known: seq<bool>, rs: seq<Record>, rec: Record, n: nat, p: nat, key: Key, i: nat)
    requires |known| == |c.kernels| && i < |c.kernels| && n < |c.kernels| && p >= 1
    requires p >= |KeyIn(c, rec).nested| || !c.kernels[n].inclusive
    ensures Partial(c, known, rs, rec, n + 1, 0, key, i) == Partial(c, known, rs, rec, n, p, key, i)
  {
    hide Effect, StateAt, KeyIn, Active;
    var k := KeyIn(c, rec);
    if i == n && |k.nested| - |key.nested| >= p { NoEffect(c, i, StateAt(c, i, rs, key), rec, key); }
    if i == n + 1 && |k.nested| - |key.nested| < 0 { NoEffect(c, i, StateAt(c, i, rs, key), rec, key); }
  }

  /** A key that is new when kernel n gets to it starts with nothing. */
  lemma NewKey(c: Config, known: seq<bool>, rs: seq<Record>, rec: Record, n: nat, p: nat, key: Key)
    requires |known| == |c.kernels| && !Touches(c, rs, key) && |KeyIn(c, rec).nested| - |key.nested| == p
    requires key == KeyIn(c, rec) ==> n == 0
    requires forall i: nat | i < n && i < |c.kernels| :: !c.kernels[i].inclusive
    ensures KernelsOk(c, known, rs, rec, n, p, key, seq(|c.kernels|, _ => ZERO))
  {
    hide Effect, StateAt, KeyIn, Active, Touches;
    forall i: nat | i < |c.kernels|
      ensures ZERO == Partial(c, known, rs, rec, n, p, key, i)
    {
      AbsentIsZero(c, i, rs, key);
      if i < n { NoEffect(c, i, ZERO, rec, key); }
    }
  }

  lemma StatesGrow(c: Config, known: seq<bool>, rs: seq<Record>, rec: Record, n: nat, p: nat,
                   keys: seq<Key>, es: seq<AggregateEntry>, key: Key, e: AggregateEntry)
    requires |known| == |c.kernels| && StatesOk(c, known, rs, rec, n, p, keys, es)
    requires KernelsOk(c, known, rs, rec, n, p, key, e.kernels)
    ensures StatesOk(c, known, rs, rec, n, p, keys + [key], es + [e])
  {
    hide KernelsOk;
  }

  // ----- The keys while a record is processed -----

  lemma {:induction false} KeysAboveAt(key: Key, p: nat)
    requires 1 <= p < |key.nested|
    ensures |KeysAbove(key)| == |key.nested| - 1 && KeysAbove(key)[p - 1] == ParentKey(key, p)
    decreases |key.nested|
  {
    var above := ParentKey(key, 1);
    if p > 1 {
      KeysAboveAt(above, p - 1);
      assert key.nested[1..][p - 1..] == key.nested[p..];
    } else if |above.nested| > 1 {
      KeysAboveAt(above, 1);
    }
  }

  lemma {:induction false} AddMissingSnoc(ks: seq<Key>, more: seq<Key>, key: Key)
    ensures AddMissing(ks, more + [key])
         == if key in AddMissing(ks, more) then AddMissing(ks, more) else AddMissing(ks, more) + [key]
    decreases |more|
  {
    if |more| == 0 {
      assert more + [key] == [key] && [key][1..] == [];
    } else {
      AddMissingSnoc(if more[0] in ks then ks else ks + [more[0]], more[1..], key);
      assert (more + [key])[1..] == more[1..] + [key];
    }
  }

  // The own key and the first m keys above it have been looked up.
  ghost function LookedUp(c: Config, rs: seq<Record>, rec: Record, m: nat): seq<Key>
    requires m <= |KeysAbove(KeyIn(c, rec))|
  {
    AddMissing(KeyList(c, rs), [KeyIn(c, rec)] + KeysAbove(KeyIn(c, rec))[..m])
  }

  lemma LookUpNext(c: Config, rs: seq<Record>, rec: Record, p: nat)
    requires 1 <= p < |KeyIn(c, rec).nested|
    ensures p <= |KeysAbove(KeyIn(c, rec))|
    ensures var ks := LookedUp(c, rs, rec, p - 1);
            var key := ParentKey(KeyIn(c, rec), p);
            LookedUp(c, rs, rec, p) == if key in ks then ks else ks + [key]
  {
    hide KeyIn, KeyList, AddMissing;
    var k := KeyIn(c, rec);
    KeysAboveAt(k, p);
    var l := [k] + KeysAbove(k)[..p - 1];
    assert [k] + KeysAbove(k)[..p] == l + [ParentKey(k, p)];
    AddMissingSnoc(KeyList(c, rs), l, ParentKey(k, p));
  }

  /** Once all keys above have been looked up, they are all there. */
  lemma AllLookedUp(c: Config, rs: seq<Record>, rec: Record, p: nat)
    requires 1 <= p < |KeyIn(c, rec).nested|
    ensures ParentKey(KeyIn(c, rec), p) in LookedUp(c, rs, rec, |KeysAbove(KeyIn(c, rec))|)
  {
    var k := KeyIn(c, rec);
    KeysAboveAt(k, p);
    KeyListMeaning(c, rs);
    var l := [k] + KeysAbove(k)[..|KeysAbove(k)|];
    assert l[p] == KeysAbove(k)[p - 1];
    AddMissingMeaning(KeyList(c, rs), l);
  }

  lemma LookedUpOk(c: Config, rs: seq<Record>, rec: Record, m: nat, key: Key)
    requires m <= |KeysAbove(KeyIn(c, rec))|
    ensures Touches(c, rs, key) ==> key in LookedUp(c, rs, rec, m)
  {
    hide Touches;
    KeyListMeaning(c, rs);
    AddMissingMeaning(KeyList(c, rs), [KeyIn(c, rec)] + KeysAbove(KeyIn(c, rec))[..m]);
  }

  lemma LookedUpStart(c: Config, rs: seq<Record>, rec: Record)
    ensures var ks := KeyList(c, rs);
            LookedUp(c, rs, rec, 0) == if KeyIn(c, rec) in ks then ks else ks + [KeyIn(c, rec)]
  {
    var k := KeyIn(c, rec);
    assert [k] + KeysAbove(k)[..0] == [] + [k];
    AddMissingSnoc(KeyList(c, rs), [], k);
  }

  lemma LookedUpEnd(c: Config, rs: seq<Record>, rec: Record)
    ensures KeyList(c, rs + [rec]) == LookedUp(c, rs, rec, if AnyInclusive(c) then |KeysAbove(KeyIn(c, rec))| else 0)
  {
    hide KeyIn, AddMissing;
    var k := KeyIn(c, rec);
    assert (rs + [rec])[..|rs|] == rs;
    assert KeysAbove(k)[..|KeysAbove(k)|] == KeysAbove(k);
    assert [k] + KeysAbove(k)[..0] == [k] && [k] + [] == [k];
    assert AnyInclusive(c) ==> Touched(c, rec) == [k] + KeysAbove(k);
    assert !AnyInclusive(c) ==> Touched(c, rec) == [k];
  }

  lemma ParentCanonical(c: Config, rec: Record, p: nat)
    requires p <= |KeyIn(c, rec).nested|
    ensures Canonical(c, ParentKey(KeyIn(c, rec), p))
  {
    KeyOfWf(c.g, Plain(), rec);
    KeyOfInOrder(c.g, Plain(), rec);
  }

  // The totals once the kernels before n have taken the record.
  ghost predicate TotalsMidway(c: Config, known: seq<bool>, rs: seq<Record>, rec: Record, n: nat, totals: seq<real>)
    requires |known| == |c.kernels|
  {
    && |totals| == |c.kernels|
    && forall i: nat | i < |c.kernels| && c.kernels[i].kind.Percent? ::
         totals[i] == if !known[i] then 0.0 else Total(c, i, if i < n then rs + [rec] else rs)
  }

  class Aggregator {
    const c: Config
    const ord: Order
    const ids: NodeIds
    // Whether the database knows the target attribute of each kernel.
    const known: seq<bool>

    // Entry 0 is not used.
    var entries: seq<AggregateEntry>
    var table: seq<nat>
    var totals: seq<real>

    ghost var keys: seq<Key>
    ghost var stream: seq<Record>

    ghost predicate Sound()
      reads this
    {
      && |known| == |c.kernels| && |totals| == |c.kernels| && Injective(ord)
      && ChainsOk(ids, entries, table) && KeysOk(c, ord, keys, entries)
    }

    /** One entry for every key the stream touches, with the state the stream gives that key. */
    ghost predicate Valid()
      reads this
    {
      && Sound() && keys == KeyList(c, stream)
      && Settles(c, known, stream, keys, entries) && TotalsOk(stream)
    }

    ghost predicate TotalsOk(rs: seq<Record>)
      requires |known| == |c.kernels|
      reads this
    {
      && |totals| == |c.kernels|
      && forall i: nat | i < |c.kernels| && c.kernels[i].kind.Percent? :: totals[i] == if known[i] then Total(c, i, rs) else 0.0
    }

    constructor (c: Config, ord: Order, ids: NodeIds, known: seq<bool>)
      requires |known| == |c.kernels| && Injective(ord)
      ensures Valid() && stream == []
      ensures this.c == c && this.ord == ord && this.ids == ids && this.known == known
    {
      this.c := c;
      this.ord := ord;
      this.ids := ids;
      this.known := known;
      entries := [AggregateEntry([], [], 0)];
      table := seq(BUCKETS, _ => 0);
      totals := seq(|c.kernels|, _ => 0.0);
      keys := [];
      stream := [];
    }

    method FindEntry(e: Record) returns (x: nat)
      requires ChainsOk(ids, entries, table)
      ensures x < |entries| && (x > 0 ==> entries[x].key == e)
      ensures x == 0 ==> forall j: nat | 1 <= j < |entries| :: entries[j].key != e
    {
      hide Bucket, Latest;
      var h := Bucket(ids, e);
      x := table[h];
      ghost var n: nat := |entries|;
      LatestBefore(n, h, e);
      while x > 0 && entries[x].key != e
        invariant n <= |entries| && x == Latest(ids, entries, h, n) && (x < n || x == 0)
        invariant forall j: nat | x < j < |entries| :: entries[j].key != e
      {
        LatestIn(ids, entries, h, n);
        n := x;
        x := entries[x].next;
        LatestBefore(n, h, e);
      }
    }

    lemma LatestBefore(n: nat, h: nat, e: Record)
      requires n <= |entries| && h == Bucket(ids, e)
      ensures var x := Latest(ids, entries, h, n); (x < n || x == 0) && forall j: nat | x < j < n :: entries[j].key != e
    {
      hide Bucket, Latest;
      forall j: nat | Latest(ids, entries, h, n) < j < n ensures entries[j].key != e {
        LatestSkips(ids, entries, h, n, j);
      }
    }

    lemma EntryCount()
      requires KeysOk(c, ord, keys, entries)
      ensures |entries| == |keys| + 1
    {
    }

    /** Finds the entry of a key or makes a new one, linked in front of its chain. */
    method GetEntry(k: Key, ghost key: Key) returns (x: nat)
      requires Sound() && Canonical(c, key) && k == Rekey(ord, key)
      modifies `entries, `table, `keys
      ensures Sound() && 1 <= x < |entries| && keys[x - 1] == key
      ensures key in old(keys) ==> entries == old(entries) && keys == old(keys)
      ensures key !in old(keys) ==>
                && keys == old(keys) + [key]
                && exists e :: entries == old(entries) + [e] && e.kernels == seq(|c.kernels|, _ => ZERO)
    {
      hide ChainsOk, Canonical, Bucket, KeyEntries, Rekey;
      var e := KeyEntries(k);
      x := FindEntry(e);
      if x > 0 {
        FoundKey(x, key);
        return;
      }
      MissingKey(key);
      var h := Bucket(ids, e);
      var made := AggregateEntry(e, seq(|c.kernels|, _ => ZERO), HeadOf(h));
      ChainsGrow(ids, entries, table, made);
      x := |entries|;
      ghost var was := entries;
      TableSize();
      table := table[h := |entries|];
      entries := entries + [made];
      keys := keys + [key];
      assert entries == was + [made];
    }

    function HeadOf(h: nat): nat
      requires h < BUCKETS && ChainsOk(ids, entries, table)
      reads this
    {
      table[h]
    }

    lemma TableSize()
      requires ChainsOk(ids, entries, table)
      ensures |table| == BUCKETS
    {
    }

    lemma FoundKey(x: nat, key: Key)
      requires KeysOk(c, ord, keys, entries) && Canonical(c, key)
      requires 1 <= x < |entries| && entries[x].key == KeyEntries(Rekey(ord, key))
      ensures keys[x - 1] == key && key in keys
    {
      hide Canonical, KeyEntries, Rekey;
      assert entries[x - 1 + 1].key == KeyEntries(Rekey(ord, keys[x - 1]));
      SameKey(c, ord, key, keys[x - 1]);
    }

    lemma MissingKey(key: Key)
      requires KeysOk(c, ord, keys, entries)
      requires forall j: nat | 1 <= j < |entries| :: entries[j].key != KeyEntries(Rekey(ord, key))
      ensures key !in keys
    {
      hide Canonical, KeyEntries, Rekey;
      forall j: nat | j < |keys| ensures keys[j] != key {
        assert entries[j + 1].key != KeyEntries(Rekey(ord, key));
      }
    }

    /** Kernels before n have taken the record, kernel n at the keys less than p levels up, and the
        own key and the first m keys above have been looked up. */
    ghost predicate Midway(rec: Record, n: nat, p: nat, m: nat)
      reads this
    {
      && Sound() && m <= |KeysAbove(KeyIn(c, rec))| && keys == LookedUp(c, stream, rec, m)
      && StatesOk(c, known, stream, rec, n, p, keys, entries)
    }

    lemma OwnUpdate(rec: Record, n: nat, key: Key)
      requires |known| == |c.kernels| && n < |c.kernels| && key == KeyIn(c, rec)
      ensures Partial(c, known, stream, rec, n, 1, key, n)
           == if !Active(c.kernels[n], known[n]) then Partial(c, known, stream, rec, n, 0, key, n)
              else Aggregate(c.kernels[n], Partial(c, known, stream, rec, n, 0, key, n), Items(rec))
    {
      hide Aggregate, StateAt, Active, Items, KeyIn;
    }

    lemma UpUpdate(rec: Record, n: nat, p: nat, key: Key)
      requires |known| == |c.kernels| && n < |c.kernels| && c.kernels[n].inclusive
      requires 1 <= p < |KeyIn(c, rec).nested| && key == ParentKey(KeyIn(c, rec), p)
      ensures Partial(c, known, stream, rec, n, p + 1, key, n)
           == if !Active(c.kernels[n], known[n]) then Partial(c, known, stream, rec, n, p, key, n)
              else ParentAggregate(c.kernels[n], Partial(c, known, stream, rec, n, p, key, n), Items(rec))
    {
      hide ParentAggregate, StateAt, Active, Items, KeyIn;
    }

    /** The kernel at the record's own entry. */
    method AggregateOwn(rec: Record, n: nat, x: nat, ghost m: nat)
      requires Midway(rec, n, 0, m) && TotalsMidway(c, known, stream, rec, n, totals) && n < |c.kernels|
      requires 1 <= x < |entries| && keys[x - 1] == KeyIn(c, rec)
      modifies `entries, `totals
      ensures Midway(rec, n, 1, m) && TotalsMidway(c, known, stream, rec, n + 1, totals) && |entries| == |old(entries)|
    {
      hide KeyIn, Partial, Aggregate, ChainsOk, Canonical, Total, Active, Items, LookedUp, KeysOk, StatesOk;
      ghost var key := KeyIn(c, rec);
      KernelState(rec, n, 0, x);
      var s, added := AggregateRecord(c.kernels[n], known[n], entries[x].kernels[n], rec);
      OwnUpdate(rec, n, key);
      assert ParentKey(key, 0) == key by { assert key.nested[0..] == key.nested; }
      StoreKernel(rec, n, 0, x, s, m);
      TotalSnoc(rec, n);
      totals := totals[n := totals[n] + added];
    }

    lemma KernelState(rec: Record, n: nat, p: nat, x: nat)
      requires Sound() && StatesOk(c, known, stream, rec, n, p, keys, entries) && n < |c.kernels| && 1 <= x < |entries|
      ensures |entries| == |keys| + 1 && |entries[x].kernels| == |c.kernels|
      ensures entries[x].kernels[n] == Partial(c, known, stream, rec, n, p, keys[x - 1], n)
    {
      hide Partial, ChainsOk, Canonical;
      assert KernelsOk(c, known, stream, rec, n, p, keys[x - 1], entries[x - 1 + 1].kernels);
    }

    method StoreKernel(rec: Record, n: nat, p: nat, x: nat, s: Acc, ghost m: nat)
      requires Midway(rec, n, p, m) && n < |c.kernels| && 1 <= x < |entries| == |keys| + 1
      requires p <= |KeyIn(c, rec).nested| && keys[x - 1] == ParentKey(KeyIn(c, rec), p)
      requires s == Partial(c, known, stream, rec, n, p + 1, keys[x - 1], n)
      requires |entries[x].kernels| == |c.kernels|
      modifies `entries
      ensures Midway(rec, n, p + 1, m) && |entries| == |old(entries)|
    {
      hide KeyIn, Partial, ChainsOk, Canonical, LookedUp, StatesOk;
      StatesAdvance(c, known, stream, rec, n, p, keys, entries, x, s);
      ChainsUpdate(ids, entries, table, x, entries[x].kernels[n := s]);
      entries := entries[x := entries[x].(kernels := entries[x].kernels[n := s])];
    }

    lemma TotalSnoc(rec: Record, n: nat)
      requires n < |c.kernels|
      ensures Total(c, n, stream + [rec]) == Total(c, n, stream) + Aggregate(c.kernels[n], ZERO, Items(rec)).sum
    {
      hide Aggregate, Items;
      assert (stream + [rec])[..|stream|] == stream;
    }

    ghost predicate InclusiveBefore(n: nat) {
      exists i: nat :: i < n && i < |c.kernels| && c.kernels[i].inclusive
    }

    /** Looking up the key p levels up for kernel n. */
    method GetParent(rec: Record, k: Key, n: nat, p: nat, ghost m: nat) returns (x: nat, ghost m': nat)
      requires Midway(rec, n, p, m) && n < |c.kernels| && c.kernels[n].inclusive
      requires k == Rekey(ord, KeyIn(c, rec)) && 1 <= p < |k.nested|
      requires m == if InclusiveBefore(n) then |KeysAbove(KeyIn(c, rec))| else p - 1
      modifies `entries, `table, `keys
      ensures Midway(rec, n, p, m') && 1 <= x < |entries| && keys[x - 1] == ParentKey(KeyIn(c, rec), p)
      ensures m' == if InclusiveBefore(n) then m else p
      ensures old(keys) <= keys
    {
      hide KeyIn, Partial, ChainsOk, Canonical, StatesOk, LookedUp, KeysAbove, KeysOk, Touches;
      ghost var key := ParentKey(KeyIn(c, rec), p);
      ParentCanonical(c, rec, p);
      LookUpNext(c, stream, rec, p);
      LookedUpOk(c, stream, rec, m, key);
      if InclusiveBefore(n) { AllLookedUp(c, stream, rec, p); } else { NewKeyUp(rec, n, p); }
      ghost var was, had := entries, keys;
      x := GetEntry(ParentKey(k, p), key);
      m' := if InclusiveBefore(n) then m else p;
      if key !in had {
        var e :| entries == was + [e] && e.kernels == seq(|c.kernels|, _ => ZERO);
        StatesGrow(c, known, stream, rec, n, p, had, was, key, e);
      }
    }

    lemma NewKeyUp(rec: Record, n: nat, p: nat)
      requires |known| == |c.kernels| && !InclusiveBefore(n) && 1 <= p < |KeyIn(c, rec).nested|
      ensures var key := ParentKey(KeyIn(c, rec), p);
              !Touches(c, stream, key) ==> KernelsOk(c, known, stream, rec, n, p, key, seq(|c.kernels|, _ => ZERO))
    {
      hide KeyIn, KernelsOk, Touches;
      var key := ParentKey(KeyIn(c, rec), p);
      if !Touches(c, stream, key) { NewKey(c, known, stream, rec, n, p, key); }
    }

    /** An inclusive kernel at the entries above, innermost first. */
    method AggregateUp(rec: Record, k: Key, n: nat, ghost m: nat) returns (ghost m': nat)
      requires Midway(rec, n, 1, m) && n < |c.kernels| && c.kernels[n].inclusive
      requires k == Rekey(ord, KeyIn(c, rec)) && |k.nested| > 0
      requires m == if InclusiveBefore(n) then |KeysAbove(KeyIn(c, rec))| else 0
      modifies `entries, `table, `keys
      ensures m' == |KeysAbove(KeyIn(c, rec))| && Midway(rec, n, |k.nested|, m') && old(keys) <= keys
    {
      hide KeyIn, Partial, ChainsOk, Canonical, StatesOk, LookedUp, KeysAbove, KeysOk, Aggregate, Items, Active, InclusiveBefore;
      var p := 1;
      m' := m;
      KeysAboveCount(KeyIn(c, rec));
      while p < |k.nested|
        invariant 1 <= p <= |k.nested| && Midway(rec, n, p, m')
        invariant m' == if InclusiveBefore(n) then |KeysAbove(KeyIn(c, rec))| else p - 1
        invariant old(keys) <= keys
      {
        var x: nat;
        x, m' := GetParent(rec, k, n, p, m');
        UpdateParent(rec, n, p, x, m');
        p := p + 1;
      }
    }

    method UpdateParent(rec: Record, n: nat, p: nat, x: nat, ghost m: nat)
      requires Midway(rec, n, p, m) && n < |c.kernels| && c.kernels[n].inclusive
      requires 1 <= p < |KeyIn(c, rec).nested| && 1 <= x < |entries| && keys[x - 1] == ParentKey(KeyIn(c, rec), p)
      modifies `entries
      ensures Midway(rec, n, p + 1, m)
    {
      hide KeyIn, Partial, Aggregate, ChainsOk, Canonical, Active, Items, LookedUp, KeysOk, StatesOk;
      KernelState(rec, n, p, x);
      var s := ParentAggregateRecord(c.kernels[n], known[n], entries[x].kernels[n], rec);
      UpUpdate(rec, n, p, keys[x - 1]);
      StoreKernel(rec, n, p, x, s, m);
    }

    static lemma KeysAboveCount(key: Key)
      ensures |KeysAbove(key)| == if |key.nested| <= 1 then 0 else |key.nested| - 1
    {
      if |key.nested| > 1 { KeysAboveAt(key, 1); }
    }

    /** The record's own entry. */
    method Begin(rec: Record, k: Key) returns (x: nat)
      requires Valid() && k == Rekey(ord, KeyIn(c, rec))
      modifies `entries, `table, `keys
      ensures Sound() && Midway(rec, 0, 0, 0) && 1 <= x < |entries| == |keys| + 1 && keys[x - 1] == KeyIn(c, rec)
    {
      hide KeyIn, Partial, ChainsOk, Canonical, Settles, KeysOk, StatesOk, LookedUp, KernelsOk, Touches, KeyList;
      ghost var key := KeyIn(c, rec);
      StatesStart(c, known, stream, rec, keys, entries);
      ParentCanonical(c, rec, 0);
      assert ParentKey(key, 0) == key by { assert key.nested[0..] == key.nested; }
      LookedUpStart(c, stream, rec);
      KeyListMeaning(c, stream);
      ghost var was, had := entries, keys;
      x := GetEntry(k, key);
      EntryCount();
      if key !in had {
        NewKey(c, known, stream, rec, 0, 0, key);
        var e :| entries == was + [e] && e.kernels == seq(|c.kernels|, _ => ZERO);
        StatesGrow(c, known, stream, rec, 0, 0, had, was, key, e);
      }
    }

    /** Aggregates a record into its own entry and, for inclusive kernels, into those above. */
    method Process(rec: Record)
      requires Valid()
      modifies this
      ensures Valid() && stream == old(stream) + [rec]
    {
      hide KeyIn, Midway, TotalsMidway, Valid, Rekey, KeysAbove, InclusiveBefore;
      ValidSound(rec);
      var k := MakeKey(c.g, ord, rec);
      KeyInMeaning(rec);
      var x := Begin(rec, k);
      ghost var m: nat := 0;
      ghost var key := KeyIn(c, rec);
      NoneBefore();
      for n := 0 to |c.kernels|
        invariant Sound() && Midway(rec, n, 0, m) && TotalsMidway(c, known, stream, rec, n, totals) && stream == old(stream)
        invariant 1 <= x < |entries| == |keys| + 1 && keys[x - 1] == key
        invariant m == if InclusiveBefore(n) then |KeysAbove(key)| else 0
      {
        m := KernelTurn(rec, k, n, x, m);
      }
      Finish(rec, m);
    }

    lemma ValidSound(rec: Record)
      requires Valid()
      ensures Sound() && TotalsMidway(c, known, stream, rec, 0, totals)
    {
      hide Total;
    }

    lemma NoneBefore()
      ensures !InclusiveBefore(0)
    {
    }

    /** All kernels have taken the record. */
    ghost method Finish(rec: Record, m: nat)
      requires Sound() && Midway(rec, |c.kernels|, 0, m) && TotalsMidway(c, known, stream, rec, |c.kernels|, totals)
      requires m == if InclusiveBefore(|c.kernels|) then |KeysAbove(KeyIn(c, rec))| else 0
      modifies `stream
      ensures Valid() && stream == old(stream) + [rec]
    {
      hide KeyIn, ChainsOk, KeysOk, Settles, StatesOk, LookedUp, Total, KeyList, KeysAbove;
      assert InclusiveBefore(|c.kernels|) == AnyInclusive(c);
      StatesEnd(c, known, stream, rec, keys, entries);
      LookedUpEnd(c, stream, rec);
      stream := stream + [rec];
    }

    lemma KeyInMeaning(rec: Record)
      ensures KeyIn(c, rec) == KeyOf(c.g, Plain(), rec)
    {
    }

    /** One kernel takes the record. */
    method KernelTurn(rec: Record, k: Key, n: nat, x: nat, ghost m: nat) returns (ghost m': nat)
      requires Midway(rec, n, 0, m) && TotalsMidway(c, known, stream, rec, n, totals) && n < |c.kernels| && k == Rekey(ord, KeyIn(c, rec))
      requires 1 <= x < |entries| && keys[x - 1] == KeyIn(c, rec)
      requires m == if InclusiveBefore(n) then |KeysAbove(KeyIn(c, rec))| else 0
      modifies `entries, `table, `keys, `totals
      ensures Sound() && Midway(rec, n + 1, 0, m') && TotalsMidway(c, known, stream, rec, n + 1, totals)
      ensures old(keys) <= keys && |entries| == |keys| + 1
      ensures m' == if InclusiveBefore(n + 1) then |KeysAbove(KeyIn(c, rec))| else 0
    {
      hide KeyIn, Partial, ChainsOk, Canonical, StatesOk, LookedUp, KernelsOk, Total, KeysAbove;
      AggregateOwn(rec, n, x, m);
      m' := m;
      KeysAboveCount(KeyIn(c, rec));
      if c.kernels[n].inclusive && |k.nested| != 0 {
        m' := AggregateUp(rec, k, n, m);
        StatesNext(c, known, stream, rec, n, |k.nested|, keys, entries);
      } else {
        StatesNext(c, known, stream, rec, n, 1, keys, entries);
      }
      InclusiveStep(n);
    }

    lemma InclusiveStep(n: nat)
      requires n < |c.kernels|
      ensures InclusiveBefore(n + 1) <==> InclusiveBefore(n) || c.kernels[n].inclusive
    {
      if InclusiveBefore(n + 1) && !c.kernels[n].inclusive {
        var i: nat :| i < n + 1 && i < |c.kernels| && c.kernels[i].inclusive;
        assert i < n;
      }
    }

    /** The flushed records: the entries' keys with what their kernels report. */
    method Flush() returns (recs: seq<Record>)
      requires Valid()
      ensures (forall i: nat | i < |c.kernels| :: Active(c.kernels[i], known[i])) ==> recs == Aggregations.Flush(c, ord, stream)
    {
      hide KeyIn, ChainsOk, Canonical, StateAt, Total, Report, KeyEntries, Rekey, Immediates, KeyList;
      recs := [];
      var x := 1;
      while x < |entries|
        invariant 1 <= x <= |entries|
        invariant AllActive() ==> recs == FlushKeys(c, ord, stream, keys[..x - 1])
      {
        var results := ReportAll(x);
        assert keys[..x][..x - 1] == keys[..x - 1] && keys[..x][x - 1] == keys[x - 1];
        assert entries[x - 1 + 1].key == KeyEntries(Rekey(ord, keys[x - 1]));
        recs := recs + [entries[x].key + Immediates(results)];
        x := x + 1;
      }
      assert keys[..|keys|] == keys;
    }

    ghost predicate AllActive()
      requires |known| == |c.kernels|
    {
      forall i: nat | i < |c.kernels| :: Active(c.kernels[i], known[i])
    }

    /** What the kernels of one entry report, in their order. */
    method ReportAll(x: nat) returns (results: seq<Item>)
      requires Valid() && 1 <= x < |entries|
      ensures AllActive() ==> results == Results(c, stream, keys[x - 1], |c.kernels|)
    {
      hide KeyIn, ChainsOk, KeysOk, StateAt, Total, Report, KeyList, Active;
      results := [];
      assert KernelsSeen(c, known, stream, keys[x - 1], entries[x - 1 + 1].kernels);
      for n := 0 to |c.kernels|
        invariant AllActive() ==> results == Results(c, stream, keys[x - 1], n)
      {
        ReportTotal(n, entries[x].kernels[n]);
        results := results + Report(c.kernels[n], entries[x].kernels[n], totals[n]);
      }
    }

    lemma ReportTotal(n: nat, s: Acc)
      requires n < |c.kernels| && |known| == |c.kernels| && TotalsOk(stream)
      ensures Active(c.kernels[n], known[n]) ==>
                Report(c.kernels[n], s, totals[n]) == Report(c.kernels[n], s, Total(c, n, stream))
    {
      hide Total;
    }
  }
}
