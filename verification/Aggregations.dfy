/** Aggregating a stream of records: the state every key ends up with, what a flush emits, and that
    aggregating flushed records instead of the records themselves gives the same result. */
module Aggregations {

  import opened Common
  import opened AggregationKeys
  import opened AggregationKernels

  datatype Config = Config(g: Grouping, kernels: seq<Kernel>)

  /** No kernel attribute is a key. */
  ghost predicate WfKeys(c: Config) {
    && (forall i: nat | i < |c.kernels| :: WfKernel(c.kernels[i]))
    && (forall i: nat, a: Attr | i < |c.kernels| && a in Reads(c.kernels[i]) + Reports(c.kernels[i]) :: !IsKey(c.g, a))
  }

  /** Moreover, kernels do not read what other kernels report. */
  ghost predicate WfConfig(c: Config) {
    && WfKeys(c)
    && (forall i: nat, j: nat | i < |c.kernels| && j < |c.kernels| && i != j ::
          Reports(c.kernels[j]) !! Reads(c.kernels[i]))
  }

  lemma WfConfigKeys(c: Config)
    requires WfConfig(c)
    ensures WfKeys(c)
  {
  }

  predicate AnyInclusive(c: Config) {
    exists i: nat :: i < |c.kernels| && c.kernels[i].inclusive
  }

  // Keys are compared in a numbering that does not depend on a database.
  function Plain(): Order { (a: Attr) => a }

  function KeyIn(c: Config, rec: Record): Key {
    KeyOf(c.g, Plain(), rec)
  }

  /** a is the key of an entry above b: its nested path is a proper, nonempty outer part of b's, and
      everything else is the same. */
  predicate Above(a: Key, b: Key) {
    0 < |a.nested| < |b.nested| && a == ParentKey(b, |b.nested| - |a.nested|)
  }

  lemma AboveTransitive(a: Key, b: Key, d: Key)
    requires Above(a, b) && Above(b, d)
    ensures Above(a, d)
  {
    var i, j := |b.nested| - |a.nested|, |d.nested| - |b.nested|;
    assert d.nested[j..][i..] == d.nested[i + j..];
  }

  // A record with one region path, outermost region first, and some values.
  function RegionRecord(path: seq<Label>, values: seq<Item>): Record {
    [Ref(path)] + Immediates(values)
  }

  lemma RegionKey(c: Config, path: seq<Label>, values: seq<Item>)
    requires AllAttrs(path, NestedAttr(c.g)) && AllAttrs(path, Picked(c.g))
    ensures KeyIn(c, RegionRecord(path, values)) == Key(Reverse(path), [], StableSort(Plain(), Filter(values, KeyAttr(c.g))))
  {
    hide StableSort, Filter, Picks;
    var rec := RegionRecord(path, values);
    assert rec[1..] == Immediates(values);
    UnravelImmediates(c.g, rec[1..]);
    FilterAll(path, Picked(c.g));
    assert Unravel(c.g, rec) == Reverse(path) + [] == Reverse(path);
    assert AllAttrs(Reverse(path), NestedAttr(c.g));
    FilterAll(Reverse(path), NestedAttr(c.g));
    FilterNone(Reverse(path), OtherAttr(c.g));
    ItemsImmediates(values);
    assert Items(rec) == [] + Items(rec[1..]) == values;
    assert StableSort<string>(Plain(), []) == [] by { SortNothing(); }
  }

  lemma SortNothing()
    ensures StableSort<string>(Plain(), []) == []
  {
  }

  /** The entries above that of a region path are exactly those of its enclosing regions with the same
      values. */
  lemma EnclosingRegions(c: Config, path: seq<Label>, values: seq<Item>, a: Key)
    requires AllAttrs(path, NestedAttr(c.g)) && AllAttrs(path, Picked(c.g))
    ensures Above(a, KeyIn(c, RegionRecord(path, values))) <==>
              exists n: nat :: 0 < n < |path| && a == KeyIn(c, RegionRecord(path[..n], values))
  {
    hide KeyIn, StableSort, Filter, Picks;
    RegionKey(c, path, values);
    var key := KeyIn(c, RegionRecord(path, values));
    forall n: nat | 0 < n < |path|
      ensures KeyIn(c, RegionRecord(path[..n], values)) == ParentKey(key, |path| - n)
    {
      RegionKey(c, path[..n], values);
      assert Reverse(path[..n]) == Reverse(path)[|path| - n..];
    }
    if Above(a, key) {
      var n := |a.nested|;
      assert 0 < n < |path| && a == KeyIn(c, RegionRecord(path[..n], values));
    }
  }

  // ----- The state of every key -----

  function Effect(c: Config, i: nat, s: Acc, rec: Record, key: Key): Acc
    requires i < |c.kernels|
  {
    var k := c.kernels[i];
    if KeyIn(c, rec) == key then Aggregate(k, s, Items(rec))
    else if k.inclusive && Above(key, KeyIn(c, rec)) then ParentAggregate(k, s, Items(rec))
    else s
  }

  function StateAt(c: Config, i: nat, rs: seq<Record>, key: Key): Acc
    requires i < |c.kernels|
  {
    if |rs| == 0 then ZERO else Effect(c, i, StateAt(c, i, rs[..|rs| - 1], key), rs[|rs| - 1], key)
  }

  function At(c: Config, i: nat, rs: seq<Record>, key: Key): Summary
    requires i < |c.kernels|
  {
    Observe(c.kernels[i], StateAt(c, i, rs, key))
  }

  // What one record adds to what is seen at a key.
  function Gain(c: Config, i: nat, rec: Record, key: Key): Summary
    requires i < |c.kernels|
  {
    Observe(c.kernels[i], Effect(c, i, ZERO, rec, key))
  }

  // The total a percentage kernel keeps for all entries.
  function Total(c: Config, i: nat, rs: seq<Record>): real
    requires i < |c.kernels|
  {
    if |rs| == 0 then 0.0
    else Total(c, i, rs[..|rs| - 1]) + Aggregate(c.kernels[i], ZERO, Items(rs[|rs| - 1])).sum
  }

  lemma EffectAdds(c: Config, i: nat, s: Acc, rec: Record, key: Key)
    requires i < |c.kernels|
    ensures Observe(c.kernels[i], Effect(c, i, s, rec, key)) == Plus(Observe(c.kernels[i], s), Gain(c, i, rec, key))
  {
    var k := c.kernels[i];
    AggregateAdds(k, s, Items(rec));
    ParentAggregateAdds(k, s, Items(rec));
  }

  lemma AtEmpty(c: Config, i: nat, key: Key)
    requires i < |c.kernels|
    ensures At(c, i, [], key) == NOTHING
  {
  }

  lemma AtSnoc(c: Config, i: nat, rs: seq<Record>, rec: Record, key: Key)
    requires i < |c.kernels|
    ensures At(c, i, rs + [rec], key) == Plus(At(c, i, rs, key), Gain(c, i, rec, key))
  {
    assert (rs + [rec])[..|rs|] == rs;
    EffectAdds(c, i, StateAt(c, i, rs, key), rec, key);
  }

  /** What is seen at a key is the sum of what the two parts of a stream add there. */
  lemma {:induction false} AtJoin(c: Config, i: nat, rs: seq<Record>, ss: seq<Record>, key: Key)
    requires i < |c.kernels|
    ensures At(c, i, rs + ss, key) == Plus(At(c, i, rs, key), At(c, i, ss, key))
  {
    hide At, Plus, Gain;
    if |ss| == 0 {
      assert rs + ss == rs;
      AtEmpty(c, i, key);
      PlusLaws(At(c, i, rs, key), NOTHING, NOTHING);
    } else {
      var front, last := ss[..|ss| - 1], ss[|ss| - 1];
      assert rs + ss == (rs + front) + [last] && ss == front + [last];
      AtJoin(c, i, rs, front, key);
      AtSnoc(c, i, rs + front, last, key);
      AtSnoc(c, i, front, last, key);
      PlusLaws(At(c, i, rs, key), At(c, i, front, key), Gain(c, i, last, key));
    }
  }

  lemma {:induction false} TotalJoin(c: Config, i: nat, rs: seq<Record>, ss: seq<Record>)
    requires i < |c.kernels|
    ensures Total(c, i, rs + ss) == Total(c, i, rs) + Total(c, i, ss)
  {
    if |ss| == 0 {
      assert rs + ss == rs;
    } else {
      TotalJoin(c, i, rs, ss[..|ss| - 1]);
      assert (rs + ss)[..|rs + ss| - 1] == rs + ss[..|ss| - 1];
    }
  }

  // ----- The entries -----

  /** The keys of the entries a record touches: its own, and those above it for inclusive kernels. */
  function Touched(c: Config, rec: Record): seq<Key> {
    [KeyIn(c, rec)] + if AnyInclusive(c) then KeysAbove(KeyIn(c, rec)) else []
  }

  function KeysAbove(key: Key): seq<Key>
    decreases |key.nested|
  {
    if |key.nested| <= 1 then [] else [ParentKey(key, 1)] + KeysAbove(ParentKey(key, 1))
  }

  function AddMissing(ks: seq<Key>, more: seq<Key>): seq<Key>
    decreases |more|
  {
    if |more| == 0 then ks else AddMissing(if more[0] in ks then ks else ks + [more[0]], more[1..])
  }

  /** The keys of the entries, in the order of their creation. */
  function KeyList(c: Config, rs: seq<Record>): seq<Key> {
    if |rs| == 0 then [] else AddMissing(KeyList(c, rs[..|rs| - 1]), Touched(c, rs[|rs| - 1]))
  }

  lemma {:induction false} KeysAboveMeaning(key: Key, a: Key)
    ensures a in KeysAbove(key) <==> Above(a, key)
    decreases |key.nested|
  {
    if |key.nested| > 1 {
      var p := ParentKey(key, 1);
      KeysAboveMeaning(p, a);
      assert a in KeysAbove(key) <==> a == p || a in KeysAbove(p);
      if Above(a, p) {
        assert Above(p, key);
        AboveTransitive(a, p, key);
      }
      if Above(a, key) && a != p {
        assert key.nested[1..][|p.nested| - |a.nested|..] == key.nested[|key.nested| - |a.nested|..];
      }
    }
  }

  lemma TouchedMeaning(c: Config, rec: Record, a: Key)
    ensures a in Touched(c, rec) <==> a == KeyIn(c, rec) || (AnyInclusive(c) && Above(a, KeyIn(c, rec)))
  {
    KeysAboveMeaning(KeyIn(c, rec), a);
  }

  lemma {:induction false} AddMissingMeaning(ks: seq<Key>, more: seq<Key>)
    requires Distinct(ks)
    ensures Distinct(AddMissing(ks, more))
    ensures forall a: Key :: a in AddMissing(ks, more) <==> a in ks || a in more
    decreases |more|
  {
    if |more| > 0 {
      AddMissingMeaning(if more[0] in ks then ks else ks + [more[0]], more[1..]);
      assert more == [more[0]] + more[1..];
    }
  }

  ghost predicate Touches(c: Config, rs: seq<Record>, a: Key) {
    exists j: nat :: j < |rs| && a in Touched(c, rs[j])
  }

  /** There is one entry for every key some record touches, and no other. */
  lemma {:induction false} KeyListMeaning(c: Config, rs: seq<Record>)
    ensures Distinct(KeyList(c, rs))
    ensures forall a: Key :: a in KeyList(c, rs) <==> Touches(c, rs, a)
  {
    hide Touched;
    if |rs| > 0 {
      var front := rs[..|rs| - 1];
      KeyListMeaning(c, front);
      AddMissingMeaning(KeyList(c, front), Touched(c, rs[|rs| - 1]));
      forall a: Key
        ensures Touches(c, rs, a) <==> Touches(c, front, a) || a in Touched(c, rs[|rs| - 1])
      {
        if Touches(c, rs, a) {
          var j: nat :| j < |rs| && a in Touched(c, rs[j]);
          assert j < |front| ==> front[j] == rs[j];
        }
        if Touches(c, front, a) {
          var j: nat :| j < |front| && a in Touched(c, front[j]);
          assert front[j] == rs[j];
        }
      }
    }
  }

  /** With an inclusive kernel, the entries above an entry exist too. */
  lemma TableClosed(c: Config, rs: seq<Record>, a: Key, b: Key)
    requires AnyInclusive(c) && b in KeyList(c, rs) && Above(a, b)
    ensures a in KeyList(c, rs)
  {
    KeyListMeaning(c, rs);
    var j: nat :| j < |rs| && b in Touched(c, rs[j]);
    TouchedMeaning(c, rs[j], b);
    TouchedMeaning(c, rs[j], a);
    if b != KeyIn(c, rs[j]) { AboveTransitive(a, b, KeyIn(c, rs[j])); }
    assert a in Touched(c, rs[j]);
  }

  /** A key without an entry has seen nothing. */
  lemma {:induction false} AbsentIsZero(c: Config, i: nat, rs: seq<Record>, a: Key)
    requires i < |c.kernels| && !Touches(c, rs, a)
    ensures StateAt(c, i, rs, a) == ZERO
  {
    if |rs| > 0 {
      var front := rs[..|rs| - 1];
      AbsentIsZero(c, i, front, a);
      assert a !in Touched(c, rs[|rs| - 1]);
      TouchedMeaning(c, rs[|rs| - 1], a);
    }
  }

  // ----- Flushing -----

  // What the first n kernels report for a key.
  function Results(c: Config, rs: seq<Record>, key: Key, n: nat): seq<Item>
    requires n <= |c.kernels|
  {
    if n == 0 then []
    else Results(c, rs, key, n - 1) + Report(c.kernels[n - 1], StateAt(c, n - 1, rs, key), Total(c, n - 1, rs))
  }

  function FlushRecord(c: Config, ord: Order, rs: seq<Record>, key: Key): Record {
    KeyEntries(Rekey(ord, key)) + Immediates(Results(c, rs, key, |c.kernels|))
  }

  function FlushKeys(c: Config, ord: Order, rs: seq<Record>, ks: seq<Key>): seq<Record> {
    if |ks| == 0 then [] else FlushKeys(c, ord, rs, ks[..|ks| - 1]) + [FlushRecord(c, ord, rs, ks[|ks| - 1])]
  }

  /** One record for every entry, in the attribute numbering of the flushing database. */
  function Flush(c: Config, ord: Order, rs: seq<Record>): seq<Record> {
    FlushKeys(c, ord, rs, KeyList(c, rs))
  }

  lemma NoKeysFlushed(c: Config, ord: Order, rs: seq<Record>, ks: seq<Key>)
    requires |ks| == 0
    ensures FlushKeys(c, ord, rs, ks) == []
  {
  }

  lemma LastFlushed(c: Config, ord: Order, rs: seq<Record>, ks: seq<Key>)
    requires |ks| > 0
    ensures FlushKeys(c, ord, rs, ks) == FlushKeys(c, ord, rs, ks[..|ks| - 1]) + [FlushRecord(c, ord, rs, ks[|ks| - 1])]
  {
  }

  /** A key as some record of this configuration has it. */
  ghost predicate Canonical(c: Config, key: Key) {
    WfKey(c.g, key) && InOrder(Plain(), key)
  }

  lemma TouchedCanonical(c: Config, rec: Record, a: Key)
    requires a in Touched(c, rec)
    ensures Canonical(c, a)
  {
    hide Touched, KeyOf, WfKey, InOrder;
    TouchedMeaning(c, rec, a);
    KeyOfWf(c.g, Plain(), rec);
    KeyOfInOrder(c.g, Plain(), rec);
    if a != KeyIn(c, rec) { AboveCanonical(c, a, KeyIn(c, rec)); }
  }

  lemma AboveCanonical(c: Config, a: Key, b: Key)
    requires Canonical(c, b) && Above(a, b)
    ensures Canonical(c, a)
  {
    hide Sorted;
    TailAttrs(b.nested, |b.nested| - |a.nested|, Picked(c.g));
    TailAttrs(b.nested, |b.nested| - |a.nested|, NestedAttr(c.g));
  }

  lemma TailAttrs<V>(l: seq<Pair<V>>, i: nat, f: Attr -> bool)
    requires AllAttrs(l, f) && i <= |l|
    ensures AllAttrs(l[i..], f)
  {
    forall j: nat | j < |l[i..]| ensures f(l[i..][j].attr) { assert l[i..][j] == l[i + j]; }
  }

  lemma KeyListCanonical(c: Config, rs: seq<Record>, a: Key)
    requires a in KeyList(c, rs)
    ensures Canonical(c, a)
  {
    KeyListMeaning(c, rs);
    var j: nat :| j < |rs| && a in Touched(c, rs[j]);
    TouchedCanonical(c, rs[j], a);
  }

  lemma RekeyBack(c: Config, ord: Order, key: Key)
    requires Canonical(c, key)
    ensures WfKey(c.g, Rekey(ord, key)) && Rekey(Plain(), Rekey(ord, key)) == key
  {
    SortMember(ord, key.others, Picked(c.g));
    SortMember(ord, key.others, OtherAttr(c.g));
    SortMember(ord, key.imms, KeyAttr(c.g));
    SortBack(ord, key.others);
    SortBack(ord, key.imms);
  }

  lemma SortBack<V>(ord: Order, l: seq<Pair<V>>)
    requires Sorted(Plain(), l)
    ensures StableSort(Plain(), StableSort(ord, l)) == l
  {
    var s := StableSort(ord, l);
    SortMeaning(ord, l);
    SortMeaning(Plain(), s);
    SameBoth(s, StableSort(Plain(), s), l) by {
      assert SameByAttr(s, StableSort(Plain(), s));
    }
    SortedUnique(Plain(), StableSort(Plain(), s), l);
  }

  lemma {:induction false} ResultsSplit(c: Config, rs: seq<Record>, key: Key, i: nat, n: nat)
    returns (pre: seq<Item>, post: seq<Item>)
    requires WfConfig(c) && i < n <= |c.kernels|
    ensures Results(c, rs, key, n) == pre + Report(c.kernels[i], StateAt(c, i, rs, key), Total(c, i, rs)) + post
    ensures Unread(c.kernels[i], pre) && Unread(c.kernels[i], post)
  {
    hide Results, Report, StateAt, Total, WfConfig, Unread;
    ResultsLast(c, rs, key, n);
    var mine := Report(c.kernels[i], StateAt(c, i, rs, key), Total(c, i, rs));
    if n == i + 1 {
      pre, post := Results(c, rs, key, i), [];
      ResultsUnread(c, rs, key, i, i);
      NothingUnread(c.kernels[i]);
      assert pre + mine + [] == pre + mine;
    } else {
      var last := Report(c.kernels[n - 1], StateAt(c, n - 1, rs, key), Total(c, n - 1, rs));
      var rest: seq<Item>;
      pre, rest := ResultsSplit(c, rs, key, i, n - 1);
      ReportUnread(c, i, n - 1, StateAt(c, n - 1, rs, key), Total(c, n - 1, rs));
      post := rest + last;
      UnreadJoin(c.kernels[i], rest, last);
      assert pre + mine + (rest + last) == (pre + mine + rest) + last;
    }
  }

  lemma ResultsLast(c: Config, rs: seq<Record>, key: Key, n: nat)
    requires 0 < n <= |c.kernels|
    ensures Results(c, rs, key, n)
         == Results(c, rs, key, n - 1) + Report(c.kernels[n - 1], StateAt(c, n - 1, rs, key), Total(c, n - 1, rs))
  {
  }

  lemma NothingRead(k: Kernel)
    requires !k.kind.Count?
    ensures Aggregate(k, ZERO, []) == ZERO && Observe(k, ZERO) == NOTHING
  {
  }

  lemma NothingUnread(k: Kernel)
    ensures Unread(k, [])
  {
  }

  lemma ReportUnread(c: Config, i: nat, j: nat, s: Acc, total: real)
    requires WfConfig(c) && i < |c.kernels| && j < |c.kernels| && i != j
    ensures Unread(c.kernels[i], Report(c.kernels[j], s, total))
  {
    hide Report, Reports, Reads;
    ReportAttrs(c.kernels[j], s, total);
  }

  lemma {:induction false} ResultsUnread(c: Config, rs: seq<Record>, key: Key, i: nat, n: nat)
    requires WfConfig(c) && n <= i < |c.kernels|
    ensures Unread(c.kernels[i], Results(c, rs, key, n))
  {
    hide Report, Reads, WfConfig;
    if n > 0 {
      ResultsUnread(c, rs, key, i, n - 1);
      ReportUnread(c, i, n - 1, StateAt(c, n - 1, rs, key), Total(c, n - 1, rs));
    }
  }

  lemma {:induction false} ResultsNoKeys(c: Config, rs: seq<Record>, key: Key, n: nat)
    requires WfKeys(c) && n <= |c.kernels|
    ensures forall j: nat | j < |Results(c, rs, key, n)| :: !IsKey(c.g, Results(c, rs, key, n)[j].attr)
  {
    hide Report, Reports, Reads, IsKey;
    if n > 0 {
      ResultsNoKeys(c, rs, key, n - 1);
      ReportAttrs(c.kernels[n - 1], StateAt(c, n - 1, rs, key), Total(c, n - 1, rs));
    }
  }

  /** A flushed record is aggregated into the entry it came from. */
  lemma FlushedKey(c: Config, ord: Order, rs: seq<Record>, key: Key)
    requires WfKeys(c) && Canonical(c, key)
    ensures KeyIn(c, FlushRecord(c, ord, rs, key)) == key
  {
    hide WfKeys, Canonical, WfKey, Results, Rekey, KeyOf, IsKey, KeyEntries, Immediates;
    RekeyBack(c, ord, key);
    ResultsNoKeys(c, rs, key, |c.kernels|);
    KeyOfFlushed(c.g, Plain(), Rekey(ord, key), Results(c, rs, key, |c.kernels|));
  }

  lemma KeyValuesUnread(c: Config, i: nat, imms: seq<Item>)
    requires WfKeys(c) && i < |c.kernels| && AllAttrs(imms, KeyAttr(c.g))
    ensures Unread(c.kernels[i], imms)
  {
    hide Reads, Reports, WfKernel;
    forall j: nat | j < |imms|
      ensures imms[j].attr !in Reads(c.kernels[i])
    {
      assert KeyAttr(c.g)(imms[j].attr);
    }
  }

  lemma UnreadJoin(k: Kernel, l: seq<Item>, m: seq<Item>)
    requires Unread(k, l) && Unread(k, m)
    ensures Unread(k, l + m)
  {
  }

  /** Of a flushed record, a kernel reads exactly its own report. */
  lemma FlushedItems(c: Config, ord: Order, rs: seq<Record>, key: Key, i: nat, s: Acc)
    requires WfConfig(c) && Canonical(c, key) && i < |c.kernels|
    ensures Aggregate(c.kernels[i], s, Items(FlushRecord(c, ord, rs, key)))
         == Aggregate(c.kernels[i], s, Report(c.kernels[i], StateAt(c, i, rs, key), Total(c, i, rs)))
  {
    hide WfConfig, Canonical, Unread, Aggregate, Report, Results, StateAt, Total, Rekey, KeyEntries, Immediates;
    var k := c.kernels[i];
    var imms := Rekey(ord, key).imms;
    var mine := Report(k, StateAt(c, i, rs, key), Total(c, i, rs));
    RekeyBack(c, ord, key);
    WfConfigKeys(c);
    KeyValuesUnread(c, i, imms);
    ItemsKey(Rekey(ord, key), Results(c, rs, key, |c.kernels|));
    var pre, post := ResultsSplit(c, rs, key, i, |c.kernels|);
    assert imms + (pre + mine + post) == (imms + pre) + mine + post;
    UnreadJoin(k, imms, pre);
    UnreadAround(k, s, imms + pre, mine, post);
  }

  // ----- Records that can be re-aggregated -----

  /** A record adds sums to an average or variance only together with a count. */
  ghost predicate RecordOk(c: Config, rec: Record) {
    forall i: nat | i < |c.kernels| ::
      Settled(c.kernels[i], Observe(c.kernels[i], Aggregate(c.kernels[i], ZERO, Items(rec))))
  }

  ghost predicate RecordsOk(c: Config, rs: seq<Record>) {
    forall j: nat | j < |rs| :: RecordOk(c, rs[j])
  }

  /** Records without reported attributes satisfy this. */
  lemma {:induction false} RawSettled(k: Kernel, s: Acc, items: seq<Item>)
    requires WfKernel(k) && Settled(k, Observe(k, s))
    requires forall j: nat | j < |items| :: items[j].attr !in Reports(k)
    ensures Settled(k, Observe(k, Aggregate(k, s, items)))
    decreases |items|
  {
    if |items| > 0 {
      assert items[0].attr !in Reports(k);
      RawSettled(k, s, items[1..]);
      RawSettled(k, Add(k, s, items[0]), items[1..]);
    }
  }

  lemma SettledPlus(k: Kernel, a: Summary, b: Summary)
    requires Settled(k, a) && Settled(k, b)
    ensures Settled(k, Plus(a, b))
  {
  }

  lemma GainSettled(c: Config, i: nat, rec: Record, key: Key)
    requires i < |c.kernels| && RecordOk(c, rec)
    ensures Settled(c.kernels[i], Gain(c, i, rec, key))
  {
    var k := c.kernels[i];
    assert Settled(k, Observe(k, Aggregate(k, ZERO, Items(rec))));
  }

  lemma {:induction false} AtSettled(c: Config, i: nat, rs: seq<Record>, key: Key)
    requires i < |c.kernels| && RecordsOk(c, rs)
    ensures Settled(c.kernels[i], At(c, i, rs, key))
  {
    hide Settled, Plus, Gain, RecordOk;
    if |rs| == 0 {
      NothingSettled(c.kernels[i]);
      AtEmpty(c, i, key);
    } else {
      var front, last := rs[..|rs| - 1], rs[|rs| - 1];
      assert rs == front + [last];
      AtSettled(c, i, front, key);
      AtSnoc(c, i, front, last, key);
      GainSettled(c, i, last, key);
      SettledPlus(c.kernels[i], At(c, i, front, key), Gain(c, i, last, key));
    }
  }

  lemma NothingSettled(k: Kernel)
    ensures Settled(k, NOTHING)
  {
  }

  // ----- What a flushed record adds -----

  /** What the flushed record of an entry adds at that entry, and what it adds above. */
  function Own(c: Config, i: nat, rs: seq<Record>, key: Key): Summary
    requires i < |c.kernels|
  {
    Reread(c.kernels[i], StateAt(c, i, rs, key), Total(c, i, rs))
  }

  function Upward(k: Kernel, own: Summary): Summary {
    if k.kind.Percent? then NOTHING.(isum := own.sum) else own
  }

  function FlushGain(c: Config, i: nat, rs: seq<Record>, from: Key, key: Key): Summary
    requires i < |c.kernels|
  {
    if from == key then Own(c, i, rs, from)
    else if c.kernels[i].inclusive && Above(key, from) then Upward(c.kernels[i], Own(c, i, rs, from))
    else NOTHING
  }

  lemma FlushedAggregate(c: Config, ord: Order, rs: seq<Record>, key: Key, i: nat)
    requires WfConfig(c) && RecordsOk(c, rs) && Canonical(c, key) && i < |c.kernels|
    ensures Observe(c.kernels[i], Aggregate(c.kernels[i], ZERO, Items(FlushRecord(c, ord, rs, key)))) == Own(c, i, rs, key)
  {
    hide Canonical, RecordsOk, Aggregate, Report, StateAt, Total, FlushRecord, Settled, Observe, Reread, Items;
    FlushedItems(c, ord, rs, key, i, ZERO);
    AtSettled(c, i, rs, key);
    ReportRereads(c.kernels[i], StateAt(c, i, rs, key), Total(c, i, rs));
  }

  lemma FlushedGain(c: Config, ord: Order, rs: seq<Record>, from: Key, key: Key, i: nat)
    requires WfConfig(c) && RecordsOk(c, rs) && Canonical(c, from) && i < |c.kernels|
    ensures Gain(c, i, FlushRecord(c, ord, rs, from), key) == FlushGain(c, i, rs, from, key)
  {
    hide WfConfig, Canonical, RecordsOk, Aggregate, FlushRecord, Own, KeyIn, Items, Above;
    WfConfigKeys(c);
    FlushedKey(c, ord, rs, from);
    FlushedAggregate(c, ord, rs, from, i);
  }

  // The sum of what the flushed records of some entries add at a key.
  function GainOf(c: Config, i: nat, rs: seq<Record>, ks: seq<Key>, key: Key): Summary
    requires i < |c.kernels|
  {
    if |ks| == 0 then NOTHING
    else Plus(GainOf(c, i, rs, ks[..|ks| - 1], key), FlushGain(c, i, rs, ks[|ks| - 1], key))
  }

  lemma {:induction false} FlushKeysAt(c: Config, ord: Order, rs: seq<Record>, ks: seq<Key>, key: Key, i: nat)
    requires WfConfig(c) && RecordsOk(c, rs) && (forall j: nat | j < |ks| :: Canonical(c, ks[j])) && i < |c.kernels|
    ensures At(c, i, FlushKeys(c, ord, rs, ks), key) == GainOf(c, i, rs, ks, key)
  {
    hide WfConfig, Canonical, RecordsOk, FlushRecord, FlushGain, Gain, At, Plus;
    if |ks| == 0 {
      AtEmpty(c, i, key);
    } else {
      var front, last := ks[..|ks| - 1], ks[|ks| - 1];
      FlushKeysAt(c, ord, rs, front, key, i);
      AtSnoc(c, i, FlushKeys(c, ord, rs, front), FlushRecord(c, ord, rs, last), key);
      FlushedGain(c, ord, rs, last, key, i);
    }
  }

  /** What re-aggregating a flush shows at a key, for every kernel: the sum over the entries at and
      below that key. */
  lemma FlushAt(c: Config, ord: Order, rs: seq<Record>, key: Key, i: nat)
    requires WfConfig(c) && RecordsOk(c, rs) && i < |c.kernels|
    ensures At(c, i, Flush(c, ord, rs), key) == GainOf(c, i, rs, KeyList(c, rs), key)
  {
    hide WfConfig, Canonical, RecordsOk, At, GainOf, KeyList, FlushKeys;
    var ks := KeyList(c, rs);
    forall j: nat | j < |ks| ensures Canonical(c, ks[j]) { KeyListCanonical(c, rs, ks[j]); }
    FlushKeysAt(c, ord, rs, ks, key, i);
  }
}
