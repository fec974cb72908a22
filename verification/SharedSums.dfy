/** Several scaled sums of one attribute: they report their sums under one attribute, so each of them
    reads the reports of all of them back. */
module SharedSums {

  import opened Common
  import opened AggregationKeys
  import opened AggregationKernels
  import opened Aggregations
  import opened Reaggregation

  /** Two exclusive scaled sums of the same attribute, with any factors. */
  predicate Twins(k: Kernel, l: Kernel) {
    && k.kind.Scale? && l.kind.Scale? && !k.inclusive && !l.inclusive
    && k.target == l.target && k.accum == l.accum
  }

  /** Every other kernel is a twin of kernel i or reports nothing that kernel i reads. */
  ghost predicate OnlyTwins(c: Config, i: nat)
    requires i < |c.kernels|
  {
    && WfKeys(c) && Twins(c.kernels[i], c.kernels[i])
    && forall j: nat | j < |c.kernels| :: Twins(c.kernels[i], c.kernels[j]) || Reports(c.kernels[j]) !! Reads(c.kernels[i])
  }

  // The scaled sums among the first n kernels that share the sum attribute of k.
  function Sharing(c: Config, k: Kernel, n: nat): nat
    requires n <= |c.kernels|
  {
    if n == 0 then 0 else Sharing(c, k, n - 1) + if Twins(k, c.kernels[n - 1]) then 1 else 0
  }

  // ----- Twins agree -----

  lemma {:induction false} TwinsAggregate(k: Kernel, l: Kernel, s: Acc, items: seq<Item>)
    requires Twins(k, l)
    ensures Aggregate(k, s, items) == Aggregate(l, s, items)
    decreases |items|
  {
    if |items| > 0 {
      TwinsAggregate(k, l, s, items[1..]);
      TwinsAggregate(k, l, Add(k, s, items[0]), items[1..]);
    }
  }

  lemma {:induction false} TwinsState(c: Config, rs: seq<Record>, key: Key, i: nat, j: nat)
    requires i < |c.kernels| && j < |c.kernels| && Twins(c.kernels[i], c.kernels[j])
    ensures StateAt(c, i, rs, key) == StateAt(c, j, rs, key)
  {
    hide Aggregate, KeyIn, Items, Above;
    if |rs| > 0 {
      TwinsState(c, rs[..|rs| - 1], key, i, j);
      TwinsAggregate(c.kernels[i], c.kernels[j], StateAt(c, i, rs[..|rs| - 1], key), Items(rs[|rs| - 1]));
    }
  }

  lemma {:induction false} AggregateJoin(k: Kernel, s: Acc, l: seq<Item>, m: seq<Item>)
    requires k.kind.Scale?
    ensures Aggregate(k, s, l + m) == Aggregate(k, Aggregate(k, s, l), m)
    decreases |l|
  {
    if |l| == 0 {
      assert l + m == m;
    } else {
      assert (l + m)[1..] == l[1..] + m;
      AggregateJoin(k, s, l[1..], m);
      AggregateJoin(k, Add(k, s, l[0]), l[1..], m);
    }
  }

  // ----- Reading a flushed record -----

  // A state that has seen some sum a number of times.
  function Times(n: nat, sum: real): real { n as real * sum }

  lemma TwinReport(k: Kernel, l: Kernel, s: Acc, t: Acc, total: real)
    requires Twins(k, l) && WfKernel(l) && t.count > 0
    ensures Aggregate(k, s, Report(l, t, total)).sum == s.sum + t.sum
    ensures Aggregate(k, s, Report(l, t, total)).count > s.count
  {
    var r := Report(l, t, total);
    AggregateHead(k, s, r[0], r[1..]);
    assert r == [r[0]] + r[1..];
    UnreadAfter(k, Add(k, s, r[0]), r[1..]);
  }

  lemma {:induction false} NothingSummed(c: Config, rs: seq<Record>, key: Key, i: nat)
    requires i < |c.kernels| && Twins(c.kernels[i], c.kernels[i]) && StateAt(c, i, rs, key).count == 0
    ensures StateAt(c, i, rs, key).sum == 0.0
  {
    hide Aggregate, KeyIn, Items, Above;
    if |rs| > 0 {
      var s, items := StateAt(c, i, rs[..|rs| - 1], key), Items(rs[|rs| - 1]);
      OnlyCounts(c.kernels[i], s, items);
      NothingSummed(c, rs[..|rs| - 1], key, i);
    }
  }

  lemma {:induction false} OnlyCounts(k: Kernel, s: Acc, items: seq<Item>)
    requires Twins(k, k)
    ensures Aggregate(k, s, items).count >= s.count
    ensures Aggregate(k, s, items).count == s.count ==> Aggregate(k, s, items) == s
    decreases |items|
  {
    if |items| > 0 {
      OnlyCounts(k, s, items[1..]);
      OnlyCounts(k, Add(k, s, items[0]), items[1..]);
    }
  }

  lemma {:induction false} SharedResults(c: Config, rs: seq<Record>, key: Key, i: nat, n: nat)
    requires i < |c.kernels| && n <= |c.kernels| && OnlyTwins(c, i)
    ensures var s, t := Aggregate(c.kernels[i], ZERO, Results(c, rs, key, n)), StateAt(c, i, rs, key);
            && s.sum == Times(Sharing(c, c.kernels[i], n), t.sum)
            && (s.count > 0 <==> t.count > 0 && Sharing(c, c.kernels[i], n) > 0)
  {
    hide Report, StateAt, Total, Aggregate, Twins, WfKeys;
    var k := c.kernels[i];
    if n > 0 {
      var l, t := c.kernels[n - 1], StateAt(c, n - 1, rs, key);
      var last := Report(l, t, Total(c, n - 1, rs));
      var before := Aggregate(k, ZERO, Results(c, rs, key, n - 1));
      SharedResults(c, rs, key, i, n - 1);
      IsScale(k);
      AggregateJoin(k, ZERO, Results(c, rs, key, n - 1), last);
      if Twins(k, l) {
        TwinsState(c, rs, key, i, n - 1);
        KernelWf(c, n - 1);
        if t.count > 0 {
          TwinReport(k, l, before, t, Total(c, n - 1, rs));
        } else {
          NothingSummed(c, rs, key, i);
          EmptyReport(k, l, before, t, Total(c, n - 1, rs));
        }
      } else {
        OtherReport(k, l, before, t, Total(c, n - 1, rs));
      }
    } else {
      IsScale(k);
      NothingRead(k);
    }
  }

  lemma EmptyReport(k: Kernel, l: Kernel, s: Acc, t: Acc, total: real)
    requires Twins(k, l) && t.count == 0
    ensures Aggregate(k, s, Report(l, t, total)) == s
  {
  }

  lemma IsScale(k: Kernel)
    requires Twins(k, k)
    ensures k.kind.Scale? && !k.inclusive && !Summing(k)
  {
  }

  lemma KernelWf(c: Config, i: nat)
    requires WfKeys(c) && i < |c.kernels|
    ensures WfKernel(c.kernels[i])
  {
  }

  lemma OtherReport(k: Kernel, l: Kernel, s: Acc, t: Acc, total: real)
    requires k.kind.Scale? && Reports(l) !! Reads(k)
    ensures Aggregate(k, s, Report(l, t, total)) == s
  {
    hide Report, Reports, Reads;
    ReportAttrs(l, t, total);
    UnreadAfter(k, s, Report(l, t, total));
  }

  lemma {:induction false} SharingSelf(c: Config, i: nat, n: nat)
    requires i < n <= |c.kernels| && Twins(c.kernels[i], c.kernels[i])
    ensures Sharing(c, c.kernels[i], n) > 0
  {
    if i < n - 1 { SharingSelf(c, i, n - 1); }
  }

  /** What a flushed record adds at its own key, and that it adds nothing at others. */
  lemma SharedGain(c: Config, ord: Order, rs: seq<Record>, from: Key, key: Key, i: nat)
    requires i < |c.kernels| && OnlyTwins(c, i) && Canonical(c, from)
    ensures Gain(c, i, FlushRecord(c, ord, rs, from), key) == if from == key then Shared(c, i, rs, key) else NOTHING
  {
    hide Canonical, Aggregate, Results, StateAt, Rekey, KeyEntries, Immediates, WfKeys, KeyIn, Unread, Twins;
    var k, out := c.kernels[i], Results(c, rs, from, |c.kernels|);
    var imms := Rekey(ord, from).imms;
    IsScale(k);
    FlushedKey(c, ord, rs, from);
    RekeyBack(c, ord, from);
    KeyValuesUnread(c, i, imms);
    ItemsKey(Rekey(ord, from), out);
    NothingUnread(k);
    assert imms + out + [] == imms + out;
    UnreadAround(k, ZERO, imms, out, []);
    SharedResults(c, rs, from, i, |c.kernels|);
    SharingSelf(c, i, |c.kernels|);
  }

  // What re-aggregating shows: the sum once for every kernel that shares it.
  function Shared(c: Config, i: nat, rs: seq<Record>, key: Key): Summary
    requires i < |c.kernels|
  {
    var seen := At(c, i, rs, key);
    NOTHING.(any := seen.any, sum := Times(Sharing(c, c.kernels[i], |c.kernels|), seen.sum))
  }

  lemma {:induction false} SharedKeys(c: Config, ord: Order, rs: seq<Record>, ks: seq<Key>, key: Key, i: nat)
    requires i < |c.kernels| && OnlyTwins(c, i) && Distinct(ks) && forall j: nat | j < |ks| :: Canonical(c, ks[j])
    ensures At(c, i, FlushKeys(c, ord, rs, ks), key) == if key in ks then Shared(c, i, rs, key) else NOTHING
  {
    hide OnlyTwins, Canonical, FlushKeys, FlushRecord, Gain, At, Shared, Plus, Distinct;
    if |ks| == 0 {
      NoKeysFlushed(c, ord, rs, ks);
      AtEmpty(c, i, key);
    } else {
      var front, last := ks[..|ks| - 1], ks[|ks| - 1];
      LastKey(ks);
      SharedKeys(c, ord, rs, front, key, i);
      LastFlushed(c, ord, rs, ks);
      AtSnoc(c, i, FlushKeys(c, ord, rs, front), FlushRecord(c, ord, rs, last), key);
      SharedGain(c, ord, rs, last, key, i);
      PlusLaws(Shared(c, i, rs, key), NOTHING, NOTHING);
      PlusLaws(NOTHING, Shared(c, i, rs, key), NOTHING);
      PlusLaws(NOTHING, NOTHING, NOTHING);
    }
  }

  lemma LastKey(ks: seq<Key>)
    requires |ks| > 0 && Distinct(ks)
    ensures Distinct(ks[..|ks| - 1]) && ks[|ks| - 1] !in ks[..|ks| - 1]
    ensures forall k: Key :: k in ks <==> k in ks[..|ks| - 1] || k == ks[|ks| - 1]
  {
    assert ks == ks[..|ks| - 1] + [ks[|ks| - 1]];
  }

  /** Every hop multiplies a shared sum by the number of kernels that share it, so it is reproduced
      exactly if only one does, or there is nothing to add. */
  lemma SharedSumPreservedIff(c: Config, ord: Order, rs: seq<Record>, key: Key, i: nat)
    requires i < |c.kernels| && OnlyTwins(c, i)
    ensures At(c, i, Flush(c, ord, rs), key).sum == Sharing(c, c.kernels[i], |c.kernels|) as real * At(c, i, rs, key).sum
    ensures At(c, i, Flush(c, ord, rs), key) == At(c, i, rs, key)
       <==> Sharing(c, c.kernels[i], |c.kernels|) == 1 || At(c, i, rs, key).sum == 0.0
  {
    hide OnlyTwins, Canonical, KeyList, FlushKeys, StateAt, Twins;
    var ks := KeyList(c, rs);
    KeyListMeaning(c, rs);
    forall j: nat | j < |ks| ensures Canonical(c, ks[j]) { KeyListCanonical(c, rs, ks[j]); }
    SharedKeys(c, ord, rs, ks, key, i);
    assert Twins(c.kernels[i], c.kernels[i]) by { ItsTwin(c, i); }
    IsScale(c.kernels[i]);
    if key !in ks { AbsentAt(c, i, rs, key); }
    OnlyOnce(Sharing(c, c.kernels[i], |c.kernels|), At(c, i, rs, key).sum);
  }

  lemma ItsTwin(c: Config, i: nat)
    requires i < |c.kernels| && OnlyTwins(c, i)
    ensures Twins(c.kernels[i], c.kernels[i])
  {
  }

  lemma OnlyOnce(n: nat, x: real)
    ensures Times(n, x) == n as real * x && (Times(n, x) == x <==> n == 1 || x == 0.0)
  {
    if n != 1 && x != 0.0 { assert n as real * x - x == (n as real - 1.0) * x; }
  }

  /** Scaling one attribute by two factors doubles both sums with every hop. */
  lemma SharedSumExample()
    ensures var k, l := ExampleKernel(Scale(2.0), false, 10), ExampleKernel(Scale(3.0), false, 10);
            var c := ExampleConfig([k, l]);
            var rs := [ExampleRecord(OUTER, 10, 1.0)];
            && WfKeys(c) && RecordsOk(c, rs) && At(c, 0, rs, OUTER).sum == 1.0
            && At(c, 0, Flush(c, Plain(), rs), OUTER).sum == 2.0 && At(c, 1, Flush(c, Plain(), rs), OUTER).sum == 2.0
  {
    hide ExampleRecord, KeyIn, StateAt, Flush, Aggregate, RecordOk;
    var k, l := ExampleKernel(Scale(2.0), false, 10), ExampleKernel(Scale(3.0), false, 10);
    var c := ExampleConfig([k, l]);
    var rec := ExampleRecord(OUTER, 10, 1.0);
    ExampleMeaning([k, l], OUTER, 10, 1.0);
    OneOk(c, rec, Pair(10, 1.0));
    ReadOne(k, ZERO, Pair(10, 1.0));
    ReadOne(l, ZERO, Pair(10, 1.0));
    StateOne(c, 0, rec, OUTER);
    StateOne(c, 1, rec, OUTER);
    TwoShare(c);
    SharedSumPreservedIff(c, Plain(), [rec], OUTER, 0);
    SharedSumPreservedIff(c, Plain(), [rec], OUTER, 1);
  }

  lemma TwoShare(c: Config)
    requires |c.kernels| == 2 && Twins(c.kernels[0], c.kernels[0]) && Twins(c.kernels[0], c.kernels[1])
    ensures Sharing(c, c.kernels[0], 2) == 2 && Sharing(c, c.kernels[1], 2) == 2
  {
    assert Sharing(c, c.kernels[0], 1) == 1 && Sharing(c, c.kernels[1], 1) == 1;
  }
}
