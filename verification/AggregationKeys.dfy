/** Aggregation keys: which parts of a record select its aggregation entry, in which order they are
    put, and why the order does not depend on the attribute numbering of one database. */
module AggregationKeys {

  type Attr = nat

  datatype Pair<V> = Pair(attr: Attr, value: V)

  // A context tree label, and an immediate value.
  type Label = Pair<string>
  type Item = Pair<real>

  // A reference stands for its root path, outermost label first.
  datatype Entry = Ref(path: seq<Label>) | Imm(item: Item)

  type Record = seq<Entry>

  // The group-by clause, and which attributes are nested.
  datatype Grouping = Grouping(all: bool, useNested: bool, keys: set<Attr>, nested: set<Attr>)

  predicate IsKey(g: Grouping, a: Attr) {
    (g.useNested && a in g.nested) || a in g.keys
  }

  predicate Picks(g: Grouping, a: Attr) {
    g.all || IsKey(g, a)
  }

  // The attribute ids of one database.
  type Order = Attr -> nat

  ghost predicate Injective(ord: Order) {
    forall a: Attr, b: Attr | ord(a) == ord(b) :: a == b
  }

  // ----- Lists of attribute-value pairs -----

  function Only<V>(l: seq<Pair<V>>, a: Attr): seq<Pair<V>> {
    if |l| == 0 then [] else (if l[0].attr == a then [l[0]] else []) + Only(l[1..], a)
  }

  ghost predicate SameByAttr<V>(l: seq<Pair<V>>, m: seq<Pair<V>>) {
    forall a: Attr :: Only(l, a) == Only(m, a)
  }

  ghost predicate Sorted<V>(ord: Order, l: seq<Pair<V>>) {
    forall i: nat, j: nat | i < j < |l| :: ord(l[i].attr) <= ord(l[j].attr)
  }

  function Insert<V>(ord: Order, x: Pair<V>, l: seq<Pair<V>>): seq<Pair<V>> {
    if |l| == 0 || ord(x.attr) <= ord(l[0].attr) then [x] + l else [l[0]] + Insert(ord, x, l[1..])
  }

  function StableSort<V>(ord: Order, l: seq<Pair<V>>): seq<Pair<V>> {
    if |l| == 0 then [] else Insert(ord, l[0], StableSort(ord, l[1..]))
  }

  lemma {:induction false} InsertAbove<V>(ord: Order, x: Pair<V>, l: seq<Pair<V>>, low: nat)
    requires low <= ord(x.attr) && forall i: nat | i < |l| :: low <= ord(l[i].attr)
    ensures var r := Insert(ord, x, l); forall i: nat | i < |r| :: low <= ord(r[i].attr)
  {
    if |l| > 0 && ord(x.attr) > ord(l[0].attr) {
      InsertAbove(ord, x, l[1..], low);
      assert Insert(ord, x, l) == [l[0]] + Insert(ord, x, l[1..]);
    } else {
      assert Insert(ord, x, l) == [x] + l;
    }
  }

  lemma PrependSorts<V>(ord: Order, x: Pair<V>, l: seq<Pair<V>>)
    requires Sorted(ord, l) && forall i: nat | i < |l| :: ord(x.attr) <= ord(l[i].attr)
    ensures Sorted(ord, [x] + l)
  {
    var r := [x] + l;
    forall i: nat, j: nat | i < j < |r| ensures ord(r[i].attr) <= ord(r[j].attr) {
      assert r[j] == l[j - 1] && (i > 0 ==> r[i] == l[i - 1]);
    }
  }

  lemma {:induction false} InsertSorts<V>(ord: Order, x: Pair<V>, l: seq<Pair<V>>)
    requires Sorted(ord, l)
    ensures Sorted(ord, Insert(ord, x, l))
  {
    if |l| > 0 && ord(x.attr) > ord(l[0].attr) {
      InsertSorts(ord, x, l[1..]);
      InsertAbove(ord, x, l[1..], ord(l[0].attr));
      assert Insert(ord, x, l) == [l[0]] + Insert(ord, x, l[1..]);
      PrependSorts(ord, l[0], Insert(ord, x, l[1..]));
    } else {
      assert Insert(ord, x, l) == [x] + l;
      PrependSorts(ord, x, l);
    }
  }

  lemma {:induction false} InsertKeeps<V>(ord: Order, x: Pair<V>, l: seq<Pair<V>>, a: Attr)
    requires Sorted(ord, l)
    ensures Only(Insert(ord, x, l), a) == Only([x] + l, a)
  {
    assert ([x] + l)[1..] == l;
    if |l| > 0 && ord(x.attr) > ord(l[0].attr) {
      InsertKeeps(ord, x, l[1..], a);
      assert ([x] + l[1..])[1..] == l[1..];
      assert ([l[0]] + Insert(ord, x, l[1..]))[1..] == Insert(ord, x, l[1..]);
    }
  }

  /** The sort orders by attribute and keeps the values of each attribute in their order. */
  lemma {:induction false} SortMeaning<V>(ord: Order, l: seq<Pair<V>>)
    ensures Sorted(ord, StableSort(ord, l)) && SameByAttr(StableSort(ord, l), l)
  {
    if |l| > 0 {
      SortMeaning(ord, l[1..]);
      var t := StableSort(ord, l[1..]);
      InsertSorts(ord, l[0], t);
      forall a: Attr
        ensures Only(StableSort(ord, l), a) == Only(l, a)
      {
        InsertKeeps(ord, l[0], t, a);
        assert ([l[0]] + t)[1..] == t && Only(t, a) == Only(l[1..], a);
      }
    }
  }

  lemma {:induction false} OnlyFinds<V>(l: seq<Pair<V>>, i: nat)
    requires i < |l|
    ensures |Only(l, l[i].attr)| > 0
  {
    if i > 0 { OnlyFinds(l[1..], i - 1); }
  }

  lemma {:induction false} OnlyFound<V>(l: seq<Pair<V>>, a: Attr) returns (i: nat)
    requires |Only(l, a)| > 0
    ensures i < |l| && l[i].attr == a
  {
    if l[0].attr == a {
      i := 0;
    } else {
      var j := OnlyFound(l[1..], a);
      i := j + 1;
    }
  }

  lemma BothEmpty<V>(l: seq<Pair<V>>, m: seq<Pair<V>>)
    requires SameByAttr(l, m)
    ensures |l| == 0 <==> |m| == 0
  {
    if |l| > 0 { OnlyFinds(l, 0); }
    if |m| > 0 { OnlyFinds(m, 0); }
  }

  lemma SameHead<V>(ord: Order, l: seq<Pair<V>>, m: seq<Pair<V>>)
    requires Injective(ord) && Sorted(ord, l) && Sorted(ord, m) && SameByAttr(l, m) && |l| > 0 && |m| > 0
    ensures l[0] == m[0]
  {
    OnlyFinds(l, 0);
    OnlyFinds(m, 0);
    assert Only(l, l[0].attr) == Only(m, l[0].attr) && Only(l, m[0].attr) == Only(m, m[0].attr);
    var i := OnlyFound(m, l[0].attr);
    var j := OnlyFound(l, m[0].attr);
    assert ord(l[0].attr) == ord(m[0].attr);
    assert Only(l, l[0].attr)[0] == l[0] && Only(m, m[0].attr)[0] == m[0];
  }

  /** An ordered list is determined by the values of each attribute. */
  lemma {:induction false} SortedUnique<V>(ord: Order, l: seq<Pair<V>>, m: seq<Pair<V>>)
    requires Injective(ord) && Sorted(ord, l) && Sorted(ord, m) && SameByAttr(l, m)
    ensures l == m
  {
    BothEmpty(l, m);
    if |l| > 0 {
      SameHead(ord, l, m);
      forall a: Attr
        ensures Only(l[1..], a) == Only(m[1..], a)
      {
        SameTail(l, m, a);
      }
      SortedUnique(ord, l[1..], m[1..]);
      assert l == [l[0]] + l[1..] && m == [m[0]] + m[1..];
    }
  }

  lemma SameTail<V>(l: seq<Pair<V>>, m: seq<Pair<V>>, a: Attr)
    requires SameByAttr(l, m) && |l| > 0 && |m| > 0 && l[0] == m[0]
    ensures Only(l[1..], a) == Only(m[1..], a)
  {
    assert Only(l, a) == Only(m, a);
    if l[0].attr == a {
      assert Only(l, a)[1..] == Only(l[1..], a) && Only(m, a)[1..] == Only(m[1..], a);
    } else {
      assert Only(l, a) == Only(l[1..], a) && Only(m, a) == Only(m[1..], a);
    }
  }

  /** Sorting for another database forgets how the list was sorted before. */
  lemma SortAgain<V>(ord: Order, l: seq<Pair<V>>, m: seq<Pair<V>>)
    requires Injective(ord) && SameByAttr(l, m)
    ensures StableSort(ord, l) == StableSort(ord, m)
  {
    SortMeaning(ord, l);
    SortMeaning(ord, m);
    assert SameByAttr(StableSort(ord, l), StableSort(ord, m)) by {
      forall a: Attr
        ensures Only(StableSort(ord, l), a) == Only(StableSort(ord, m), a)
      {
        assert Only(l, a) == Only(m, a);
      }
    }
    SortedUnique(ord, StableSort(ord, l), StableSort(ord, m));
  }

  function Reverse<T>(l: seq<T>): (r: seq<T>)
    ensures |r| == |l| && forall i: nat | i < |l| :: r[i] == l[|l| - 1 - i]
  {
    if |l| == 0 then [] else Reverse(l[1..]) + [l[0]]
  }

  function Filter<V>(l: seq<Pair<V>>, f: Attr -> bool): (r: seq<Pair<V>>)
    ensures forall i: nat | i < |r| :: f(r[i].attr)
  {
    if |l| == 0 then [] else (if f(l[0].attr) then [l[0]] else []) + Filter(l[1..], f)
  }

  ghost predicate AllAttrs<V>(l: seq<Pair<V>>, f: Attr -> bool) {
    forall i: nat | i < |l| :: f(l[i].attr)
  }

  lemma {:induction false} FilterAll<V>(l: seq<Pair<V>>, f: Attr -> bool)
    requires AllAttrs(l, f)
    ensures Filter(l, f) == l
  {
    if |l| > 0 {
      assert f(l[0].attr);
      FilterAll(l[1..], f);
      assert l == [l[0]] + l[1..];
    }
  }

  lemma {:induction false} FilterNone<V>(l: seq<Pair<V>>, f: Attr -> bool)
    requires forall i: nat | i < |l| :: !f(l[i].attr)
    ensures Filter(l, f) == []
  {
    if |l| > 0 {
      assert !f(l[0].attr);
      FilterNone(l[1..], f);
    }
  }

  lemma {:induction false} FilterJoin<V>(l: seq<Pair<V>>, m: seq<Pair<V>>, f: Attr -> bool)
    ensures Filter(l + m, f) == Filter(l, f) + Filter(m, f)
  {
    if |l| == 0 {
      assert l + m == m;
    } else {
      FilterJoin(l[1..], m, f);
      assert (l + m)[1..] == l[1..] + m;
      var head: seq<Pair<V>> := if f(l[0].attr) then [l[0]] else [];
      assert head + (Filter(l[1..], f) + Filter(m, f)) == (head + Filter(l[1..], f)) + Filter(m, f);
    }
  }

  lemma {:induction false} FilterMember<V>(l: seq<Pair<V>>, f: Attr -> bool, g: Attr -> bool)
    requires AllAttrs(l, g)
    ensures AllAttrs(Filter(l, f), g)
  {
    if |l| > 0 {
      assert g(l[0].attr);
      FilterMember(l[1..], f, g);
    }
  }

  lemma {:induction false} SortMember<V>(ord: Order, l: seq<Pair<V>>, g: Attr -> bool)
    requires AllAttrs(l, g)
    ensures AllAttrs(StableSort(ord, l), g)
  {
    if |l| > 0 {
      assert g(l[0].attr);
      SortMember(ord, l[1..], g);
      InsertMember(ord, l[0], StableSort(ord, l[1..]), g);
    }
  }

  lemma {:induction false} InsertMember<V>(ord: Order, x: Pair<V>, l: seq<Pair<V>>, g: Attr -> bool)
    requires g(x.attr) && AllAttrs(l, g)
    ensures AllAttrs(Insert(ord, x, l), g)
  {
    if |l| > 0 && ord(x.attr) > ord(l[0].attr) {
      InsertMember(ord, x, l[1..], g);
      assert Insert(ord, x, l) == [l[0]] + Insert(ord, x, l[1..]);
    } else {
      assert Insert(ord, x, l) == [x] + l;
    }
  }

  // ----- Keys -----

  function Picked(g: Grouping): Attr -> bool { (a: Attr) => Picks(g, a) }

  function KeyAttr(g: Grouping): Attr -> bool { (a: Attr) => IsKey(g, a) }

  function NestedAttr(g: Grouping): Attr -> bool { (a: Attr) => a in g.nested }

  function OtherAttr(g: Grouping): Attr -> bool { (a: Attr) => a !in g.nested }

  /** The labels of a record's references that belong to the key, each path innermost first. */
  function Unravel(g: Grouping, rec: Record): seq<Label> {
    if |rec| == 0 then []
    else (if rec[0].Ref? then Reverse(Filter(rec[0].path, Picked(g))) else []) + Unravel(g, rec[1..])
  }

  function Items(rec: Record): seq<Item> {
    if |rec| == 0 then [] else (if rec[0].Imm? then [rec[0].item] else []) + Items(rec[1..])
  }

  // Nested labels, innermost first, then the other labels and the key values by attribute.
  datatype Key = Key(nested: seq<Label>, others: seq<Label>, imms: seq<Item>)

  function KeyOf(g: Grouping, ord: Order, rec: Record): Key {
    var nodes := Unravel(g, rec);
    Key(Filter(nodes, NestedAttr(g)), StableSort(ord, Filter(nodes, OtherAttr(g))),
        StableSort(ord, Filter(Items(rec), KeyAttr(g))))
  }

  function ParentKey(k: Key, i: nat): Key
    requires i <= |k.nested|
  {
    k.(nested := k.nested[i..])
  }

  function Immediates(l: seq<Item>): seq<Entry> {
    seq(|l|, i requires 0 <= i < |l| => Imm(l[i]))
  }

  /** The entries stored for a key: one reference to the node of the whole path, unless the path is
      empty, and the key values. */
  function KeyEntries(k: Key): Record {
    (if k.nested + k.others == [] then [] else [Ref(Reverse(k.nested + k.others))]) + Immediates(k.imms)
  }

  ghost predicate WfKey(g: Grouping, k: Key) {
    && AllAttrs(k.nested, Picked(g)) && AllAttrs(k.nested, NestedAttr(g))
    && AllAttrs(k.others, Picked(g)) && AllAttrs(k.others, OtherAttr(g))
    && AllAttrs(k.imms, KeyAttr(g))
  }

  /** The same key for another attribute numbering. */
  function Rekey(ord: Order, k: Key): Key {
    Key(k.nested, StableSort(ord, k.others), StableSort(ord, k.imms))
  }

  lemma {:induction false} UnravelPicks(g: Grouping, rec: Record)
    ensures AllAttrs(Unravel(g, rec), Picked(g))
  {
    if |rec| > 0 { UnravelPicks(g, rec[1..]); }
  }

  lemma KeyOfWf(g: Grouping, ord: Order, rec: Record)
    ensures WfKey(g, KeyOf(g, ord, rec))
  {
    var nodes := Unravel(g, rec);
    UnravelPicks(g, rec);
    FilterMember(nodes, NestedAttr(g), Picked(g));
    var others := Filter(nodes, OtherAttr(g));
    FilterMember(nodes, OtherAttr(g), Picked(g));
    SortMember(ord, others, Picked(g));
    SortMember(ord, others, OtherAttr(g));
    SortMember(ord, Filter(Items(rec), KeyAttr(g)), KeyAttr(g));
  }

  lemma {:induction false} ItemsJoin(r: Record, s: Record)
    ensures Items(r + s) == Items(r) + Items(s)
  {
    if |r| == 0 {
      assert r + s == s;
    } else {
      ItemsJoin(r[1..], s);
      assert (r + s)[1..] == r[1..] + s;
      var head: seq<Item> := if r[0].Imm? then [r[0].item] else [];
      assert head + (Items(r[1..]) + Items(s)) == (head + Items(r[1..])) + Items(s);
    }
  }

  lemma {:induction false} ItemsImmediates(l: seq<Item>)
    ensures Items(Immediates(l)) == l
  {
    if |l| > 0 {
      ItemsImmediates(l[1..]);
      assert Immediates(l)[1..] == Immediates(l[1..]);
      assert l == [l[0]] + l[1..];
    }
  }

  lemma {:induction false} UnravelImmediates(g: Grouping, r: Record)
    requires forall i: nat | i < |r| :: r[i].Imm?
    ensures Unravel(g, r) == []
  {
    if |r| > 0 { UnravelImmediates(g, r[1..]); }
  }

  /** The entries of a key, with further values that are no key values, unravel to the key. */
  lemma UnravelKey(g: Grouping, k: Key, out: seq<Item>)
    requires WfKey(g, k)
    ensures Unravel(g, KeyEntries(k) + Immediates(out)) == k.nested + k.others
  {
    var path := k.nested + k.others;
    var tail := Immediates(k.imms) + Immediates(out);
    UnravelImmediates(g, tail);
    if path == [] {
      assert KeyEntries(k) + Immediates(out) == tail;
    } else {
      var rec := [Ref(Reverse(path))] + tail;
      assert KeyEntries(k) + Immediates(out) == rec;
      assert AllAttrs(Reverse(path), Picked(g));
      FilterAll(Reverse(path), Picked(g));
      assert rec[1..] == tail && Reverse(Reverse(path)) == path;
    }
  }

  lemma ItemsKey(k: Key, out: seq<Item>)
    ensures Items(KeyEntries(k) + Immediates(out)) == k.imms + out
  {
    var path := k.nested + k.others;
    ItemsImmediates(k.imms);
    ItemsImmediates(out);
    ItemsJoin(KeyEntries(k), Immediates(out));
    if path == [] {
      assert KeyEntries(k) == Immediates(k.imms);
    } else {
      assert KeyEntries(k)[1..] == Immediates(k.imms);
    }
  }

  lemma KeySplit(g: Grouping, k: Key)
    requires WfKey(g, k)
    ensures k.nested == Filter(k.nested + k.others, NestedAttr(g))
    ensures k.others == Filter(k.nested + k.others, OtherAttr(g))
  {
    FilterJoin(k.nested, k.others, NestedAttr(g));
    FilterJoin(k.nested, k.others, OtherAttr(g));
    FilterAll(k.nested, NestedAttr(g));
    FilterNone(k.others, NestedAttr(g));
    FilterNone(k.nested, OtherAttr(g));
    FilterAll(k.others, OtherAttr(g));
  }

  /** A flushed record has the key of its entry, whatever the numbering of the database reading it. */
  lemma KeyOfFlushed(g: Grouping, ord: Order, k: Key, out: seq<Item>)
    requires WfKey(g, k) && forall i: nat | i < |out| :: !IsKey(g, out[i].attr)
    ensures KeyOf(g, ord, KeyEntries(k) + Immediates(out)) == Rekey(ord, k)
  {
    hide Filter, StableSort, Unravel, Items, KeyEntries, Immediates;
    UnravelKey(g, k, out);
    ItemsKey(k, out);
    KeySplit(g, k);
    FilterJoin(k.imms, out, KeyAttr(g));
    FilterAll(k.imms, KeyAttr(g));
    FilterNone(out, KeyAttr(g));
    assert k.imms + [] == k.imms;
  }

  /** Renumbering the key of a record gives the key another database computes for that record. */
  lemma KeyOfRenumbered(g: Grouping, ord: Order, ord': Order, rec: Record)
    requires Injective(ord')
    ensures Rekey(ord', KeyOf(g, ord, rec)) == KeyOf(g, ord', rec)
  {
    var others := Filter(Unravel(g, rec), OtherAttr(g));
    var imms := Filter(Items(rec), KeyAttr(g));
    SortMeaning(ord, others);
    SortMeaning(ord, imms);
    SortAgain(ord', StableSort(ord, others), others);
    SortAgain(ord', StableSort(ord, imms), imms);
  }

  lemma {:induction false} OnlyFiltered<V>(l: seq<Pair<V>>, f: Attr -> bool, a: Attr)
    ensures Only(Filter(l, f), a) == if f(a) then Only(l, a) else []
  {
    if |l| > 0 {
      OnlyFiltered(l[1..], f, a);
      if f(l[0].attr) {
        assert Filter(l, f) == [l[0]] + Filter(l[1..], f) && Filter(l, f)[1..] == Filter(l[1..], f);
      } else {
        assert Filter(l, f) == Filter(l[1..], f) && [] + Only(l[1..], a) == Only(l[1..], a);
      }
    }
  }

  /** Filtering and sorting identifies lists exactly if they agree on every attribute that passes. */
  lemma SortFilterIff<V>(ord: Order, f: Attr -> bool, l: seq<Pair<V>>, m: seq<Pair<V>>)
    requires Injective(ord)
    ensures StableSort(ord, Filter(l, f)) == StableSort(ord, Filter(m, f)) <==> forall a: Attr | f(a) :: Only(l, a) == Only(m, a)
  {
    hide StableSort, Filter, Only;
    var x, y := Filter(l, f), Filter(m, f);
    SortMeaning(ord, x);
    SortMeaning(ord, y);
    forall a: Attr ensures (Only(x, a) == if f(a) then Only(l, a) else []) && (Only(y, a) == if f(a) then Only(m, a) else []) {
      OnlyFiltered(l, f, a);
      OnlyFiltered(m, f, a);
    }
    if StableSort(ord, x) == StableSort(ord, y) {
      forall a: Attr | f(a) ensures Only(l, a) == Only(m, a) {
        assert Only(StableSort(ord, x), a) == Only(x, a);
      }
    }
    if forall a: Attr | f(a) :: Only(l, a) == Only(m, a) {
      assert SameByAttr(x, y);
      SortAgain(ord, x, y);
    }
  }

  /** Two records belong to the same entry if and only if they have the same nested labels and agree, attribute
      by attribute, on the other grouped labels and on the key values; the order between attributes does
      not matter. */
  lemma SameEntryIff(g: Grouping, ord: Order, r: Record, s: Record)
    requires Injective(ord)
    ensures KeyOf(g, ord, r) == KeyOf(g, ord, s) <==>
              && Filter(Unravel(g, r), NestedAttr(g)) == Filter(Unravel(g, s), NestedAttr(g))
              && (forall a: Attr | a !in g.nested :: Only(Unravel(g, r), a) == Only(Unravel(g, s), a))
              && (forall a: Attr | IsKey(g, a) :: Only(Items(r), a) == Only(Items(s), a))
  {
    hide StableSort, Filter, Only, Unravel, Items, IsKey;
    SortFilterIff(ord, OtherAttr(g), Unravel(g, r), Unravel(g, s));
    SortFilterIff(ord, KeyAttr(g), Items(r), Items(s));
    assert forall a: Attr :: OtherAttr(g)(a) <==> a !in g.nested;
    assert forall a: Attr :: KeyAttr(g)(a) <==> IsKey(g, a);
  }

  ghost predicate InOrder(ord: Order, k: Key) {
    Sorted(ord, k.others) && Sorted(ord, k.imms)
  }

  lemma KeyOfInOrder(g: Grouping, ord: Order, rec: Record)
    ensures InOrder(ord, KeyOf(g, ord, rec))
  {
    SortMeaning(ord, Filter(Unravel(g, rec), OtherAttr(g)));
    SortMeaning(ord, Filter(Items(rec), KeyAttr(g)));
  }

  /** Two keys of one database are equal exactly if they are equal in any other numbering. */
  lemma RekeyInjective(ord: Order, ord': Order, k: Key, k': Key)
    requires Injective(ord) && InOrder(ord, k) && InOrder(ord, k')
    ensures Rekey(ord', k) == Rekey(ord', k') <==> k == k'
  {
    if Rekey(ord', k) == Rekey(ord', k') {
      SortMeaning(ord', k.others);
      SortMeaning(ord', k'.others);
      SortMeaning(ord', k.imms);
      SortMeaning(ord', k'.imms);
      SameBoth(StableSort(ord', k.others), k.others, k'.others);
      SameBoth(StableSort(ord', k.imms), k.imms, k'.imms);
      SortedUnique(ord, k.others, k'.others);
      SortedUnique(ord, k.imms, k'.imms);
    }
  }

  lemma SameBoth<V>(s: seq<Pair<V>>, l: seq<Pair<V>>, m: seq<Pair<V>>)
    requires SameByAttr(s, l) && SameByAttr(s, m)
    ensures SameByAttr(l, m)
  {
    forall a: Attr
      ensures Only(l, a) == Only(m, a)
    {
      assert Only(s, a) == Only(l, a);
    }
  }

  /** The stored entries tell the keys apart. */
  lemma KeyEntriesInjective(g: Grouping, k: Key, k': Key)
    requires WfKey(g, k) && WfKey(g, k')
    ensures KeyEntries(k) == KeyEntries(k') <==> k == k'
  {
    if KeyEntries(k) == KeyEntries(k') {
      UnravelKey(g, k, []);
      UnravelKey(g, k', []);
      ItemsKey(k, []);
      ItemsKey(k', []);
      KeySplit(g, k);
      KeySplit(g, k');
      assert k.imms + [] == k.imms && k'.imms + [] == k'.imms;
    }
  }

  // ----- What is in a key -----

  lemma {:induction false} InOnly<V>(l: seq<Pair<V>>, x: Pair<V>)
    ensures x in l <==> x in Only(l, x.attr)
  {
    if |l| > 0 {
      InOnly(l[1..], x);
      assert l == [l[0]] + l[1..];
    }
  }

  lemma {:induction false} InFilter<V>(l: seq<Pair<V>>, f: Attr -> bool, x: Pair<V>)
    ensures x in Filter(l, f) <==> x in l && f(x.attr)
  {
    if |l| > 0 {
      InFilter(l[1..], f, x);
      assert l == [l[0]] + l[1..];
    }
  }

  lemma InSorted<V>(ord: Order, l: seq<Pair<V>>, x: Pair<V>)
    ensures x in StableSort(ord, l) <==> x in l
  {
    hide StableSort, Only;
    SortMeaning(ord, l);
    assert Only(StableSort(ord, l), x.attr) == Only(l, x.attr);
    InOnly(l, x);
    InOnly(StableSort(ord, l), x);
  }

  /** Some reference of the record has the label on its path. */
  ghost predicate OnPath(rec: Record, l: Label) {
    exists j: nat :: j < |rec| && rec[j].Ref? && l in rec[j].path
  }

  lemma InReverse<T>(l: seq<T>, x: T)
    ensures x in Reverse(l) <==> x in l
  {
    if x in l {
      var i: nat :| i < |l| && l[i] == x;
      assert Reverse(l)[|l| - 1 - i] == x;
    }
  }

  lemma {:induction false} InUnravel(g: Grouping, rec: Record, l: Label)
    ensures l in Unravel(g, rec) <==> OnPath(rec, l) && Picks(g, l.attr)
  {
    hide Picks;
    if |rec| > 0 {
      var rest := rec[1..];
      InUnravel(g, rest, l);
      if rec[0].Ref? {
        InReverse(Filter(rec[0].path, Picked(g)), l);
        InFilter(rec[0].path, Picked(g), l);
      }
      if OnPath(rec, l) {
        var j: nat :| j < |rec| && rec[j].Ref? && l in rec[j].path;
        if j > 0 { assert rest[j - 1] == rec[j]; }
      }
      if OnPath(rest, l) {
        var j: nat :| j < |rest| && rest[j].Ref? && l in rest[j].path;
        assert rec[j + 1] == rest[j];
      }
    }
  }

  lemma {:induction false} InItems(rec: Record, x: Item)
    ensures x in Items(rec) <==> exists j: nat :: j < |rec| && rec[j] == Imm(x)
  {
    if |rec| > 0 {
      InItems(rec[1..], x);
      if j: nat :| j < |rec[1..]| && rec[1..][j] == Imm(x) { assert rec[j + 1] == Imm(x); }
      if j: nat :| j < |rec| && rec[j] == Imm(x) {
        if j > 0 { assert rec[1..][j - 1] == Imm(x); }
      }
    }
  }

  /** A key has the nested labels of the record's paths if all are grouped by, or nested ones, or that
      attribute; the other labels if all or that attribute are grouped by; and the values of grouped
      attributes, and of nested ones if these are grouped by. */
  lemma KeyContents(g: Grouping, ord: Order, rec: Record, l: Label, x: Item)
    ensures l in KeyOf(g, ord, rec).nested <==> OnPath(rec, l) && l.attr in g.nested && (g.all || g.useNested || l.attr in g.keys)
    ensures l in KeyOf(g, ord, rec).others <==> OnPath(rec, l) && l.attr !in g.nested && (g.all || l.attr in g.keys)
    ensures x in KeyOf(g, ord, rec).imms <==>
              (exists j: nat :: j < |rec| && rec[j] == Imm(x)) && (x.attr in g.keys || (g.useNested && x.attr in g.nested))
  {
    hide StableSort, Filter, Unravel, Items, OnPath;
    var nodes := Unravel(g, rec);
    InUnravel(g, rec, l);
    InFilter(nodes, NestedAttr(g), l);
    InFilter(nodes, OtherAttr(g), l);
    InSorted(ord, Filter(nodes, OtherAttr(g)), l);
    InItems(rec, x);
    InFilter(Items(rec), KeyAttr(g), x);
    InSorted(ord, Filter(Items(rec), KeyAttr(g)), x);
  }
}
