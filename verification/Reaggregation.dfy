/** Re-aggregating flushed records: which kernels reproduce their result, and exactly when the others
    do. */
module Reaggregation {

  import opened Common
  import opened AggregationKeys
  import opened AggregationKernels
  import opened Aggregations

  /** No record adds anything negative to a percentage. */
  ghost predicate NonNegative(c: Config, rs: seq<Record>) {
    forall i: nat, j: nat | i < |c.kernels| && j < |rs| && c.kernels[i].kind.Percent? :: Worth(c, i, rs[j]) >= 0.0
  }

  /** Every record counts for something, where counts are to be reproduced. */
  ghost predicate EveryCounts(c: Config, rs: seq<Record>) {
    AnyInclusive(c) || forall i: nat, j: nat | i < |c.kernels| && j < |rs| && c.kernels[i].kind.Count? :: CountsFor(c, i, rs[j]) > 0
  }

  function CountsFor(c: Config, i: nat, rec: Record): nat
    requires i < |c.kernels|
  {
    Aggregate(c.kernels[i], ZERO, Items(rec)).count
  }

  /** A record without a reported count counts for one. */
  lemma RawCounts(c: Config, i: nat, rec: Record)
    requires i < |c.kernels| && c.kernels[i].kind.Count? && Unread(c.kernels[i], Items(rec))
    ensures CountsFor(c, i, rec) == 1
  {
    UnreadAfter(c.kernels[i], ZERO, Items(rec));
  }

  /** Records whose results can be flushed and aggregated again. */
  ghost predicate Mergeable(c: Config, rs: seq<Record>) {
    RecordsOk(c, rs) && NonNegative(c, rs) && EveryCounts(c, rs)
  }

  function Worth(c: Config, i: nat, rec: Record): real
    requires i < |c.kernels|
  {
    Aggregate(c.kernels[i], ZERO, Items(rec)).sum
  }

  // ----- Exclusive kernels -----

  lemma GainOfSnoc(c: Config, i: nat, rs: seq<Record>, ks: seq<Key>, last: Key, key: Key)
    requires i < |c.kernels|
    ensures GainOf(c, i, rs, ks + [last], key) == Plus(GainOf(c, i, rs, ks, key), FlushGain(c, i, rs, last, key))
  {
    assert (ks + [last])[..|ks|] == ks;
  }

  lemma FrontDistinct(ks: seq<Key>)
    requires |ks| > 0 && Distinct(ks)
    ensures Distinct(ks[..|ks| - 1]) && ks[|ks| - 1] !in ks[..|ks| - 1] && ks == ks[..|ks| - 1] + [ks[|ks| - 1]]
    ensures forall key: Key :: key in ks <==> key in ks[..|ks| - 1] || key == ks[|ks| - 1]
  {
    assert ks == ks[..|ks| - 1] + [ks[|ks| - 1]];
  }

  lemma {:induction false} ExclusiveGain(c: Config, i: nat, rs: seq<Record>, ks: seq<Key>, key: Key)
    requires i < |c.kernels| && !c.kernels[i].inclusive && Distinct(ks)
    ensures GainOf(c, i, rs, ks, key) == if key in ks then Own(c, i, rs, key) else NOTHING
  {
    hide Own, Plus, GainOf, Distinct;
    if |ks| == 0 {
      assert GainOf(c, i, rs, ks, key) == NOTHING by { GainOfNone(c, i, rs, key); }
    } else {
      var front, last := ks[..|ks| - 1], ks[|ks| - 1];
      FrontDistinct(ks);
      ExclusiveGain(c, i, rs, front, key);
      GainOfSnoc(c, i, rs, front, last, key);
      PlusLaws(Own(c, i, rs, key), NOTHING, NOTHING);
      PlusLaws(NOTHING, Own(c, i, rs, key), NOTHING);
      PlusLaws(NOTHING, NOTHING, NOTHING);
    }
  }

  lemma GainOfNone(c: Config, i: nat, rs: seq<Record>, key: Key)
    requires i < |c.kernels|
    ensures GainOf(c, i, rs, [], key) == NOTHING
  {
  }

  /** An exclusive percentage kernel's two sums agree, and all its sums lie between nothing and the
      total. */
  lemma {:induction false} PercentBounds(c: Config, i: nat, rs: seq<Record>, key: Key)
    requires i < |c.kernels| && c.kernels[i].kind.Percent?
    ensures NonNegative(c, rs) ==> var s := StateAt(c, i, rs, key); 0.0 <= s.sum <= s.isum <= Total(c, i, rs)
    ensures !c.kernels[i].inclusive ==> StateAt(c, i, rs, key).sum == StateAt(c, i, rs, key).isum
  {
    if |rs| > 0 {
      var front, last := rs[..|rs| - 1], rs[|rs| - 1];
      assert NonNegative(c, rs) ==> Worth(c, i, rs[|rs| - 1]) >= 0.0;
      PercentBounds(c, i, front, key);
      PercentStep(c, i, StateAt(c, i, front, key), last, key);
    }
  }

  /** What a record does to the two sums of a percentage. */
  lemma PercentStep(c: Config, i: nat, s: Acc, rec: Record, key: Key)
    requires i < |c.kernels| && c.kernels[i].kind.Percent?
    ensures var v := Aggregate(c.kernels[i], ZERO, Items(rec)).sum;
            var t := Effect(c, i, s, rec, key);
            && t.sum == s.sum + (if KeyIn(c, rec) == key then v else 0.0)
            && t.isum == s.isum + (if KeyIn(c, rec) == key || (c.kernels[i].inclusive && Above(key, KeyIn(c, rec)))
                                   then v else 0.0)
  {
    PercentAdds(c.kernels[i], s, Items(rec));
  }

  lemma OwnIsAt(c: Config, i: nat, rs: seq<Record>, key: Key)
    requires i < |c.kernels| && !c.kernels[i].kind.Count? && !c.kernels[i].kind.Percent?
    ensures Own(c, i, rs, key) == At(c, i, rs, key)
  {
    hide StateAt, Total;
  }

  lemma AbsentAt(c: Config, i: nat, rs: seq<Record>, key: Key)
    requires i < |c.kernels| && key !in KeyList(c, rs)
    ensures At(c, i, rs, key) == NOTHING
  {
    hide Touches;
    KeyListMeaning(c, rs);
    AbsentIsZero(c, i, rs, key);
  }

  lemma ExclusivePreserved(c: Config, ord: Order, rs: seq<Record>, key: Key, i: nat)
    requires WfConfig(c) && RecordsOk(c, rs) && i < |c.kernels|
    requires !c.kernels[i].inclusive && !c.kernels[i].kind.Count? && !c.kernels[i].kind.Percent?
    ensures At(c, i, Flush(c, ord, rs), key) == At(c, i, rs, key)
  {
    hide WfConfig, RecordsOk, At, Own, GainOf, KeyList, Flush;
    FlushAt(c, ord, rs, key, i);
    KeyListMeaning(c, rs);
    ExclusiveGain(c, i, rs, KeyList(c, rs), key);
    if key in KeyList(c, rs) { OwnIsAt(c, i, rs, key); } else { AbsentAt(c, i, rs, key); }
  }

  /** A count is reproduced except at entries that have counted nothing, which come back as one. */
  lemma CountPreservedIff(c: Config, ord: Order, rs: seq<Record>, key: Key, i: nat)
    requires WfConfig(c) && RecordsOk(c, rs) && i < |c.kernels| && c.kernels[i].kind.Count?
    ensures At(c, i, Flush(c, ord, rs), key) == At(c, i, rs, key)
       <==> !(key in KeyList(c, rs) && StateAt(c, i, rs, key).count == 0)
    ensures At(c, i, Flush(c, ord, rs), key).n
         == if key in KeyList(c, rs) && StateAt(c, i, rs, key).count == 0 then 1 else StateAt(c, i, rs, key).count
  {
    hide RecordsOk, GainOf, KeyList, Flush, StateAt;
    FlushAt(c, ord, rs, key, i);
    KeyListMeaning(c, rs);
    ExclusiveGain(c, i, rs, KeyList(c, rs), key);
    if key !in KeyList(c, rs) { AbsentAt(c, i, rs, key); }
  }

  /** Without inclusive kernels every entry has a record of its own, so counts are reproduced if every
      record counts for something. */
  lemma CountPreserved(c: Config, ord: Order, rs: seq<Record>, key: Key, i: nat)
    requires WfConfig(c) && RecordsOk(c, rs) && i < |c.kernels| && c.kernels[i].kind.Count? && !AnyInclusive(c)
    requires EveryCounts(c, rs)
    ensures At(c, i, Flush(c, ord, rs), key) == At(c, i, rs, key)
  {
    hide WfConfig, RecordsOk, At, Flush, KeyList, Aggregate, Touched, StateAt, AnyInclusive;
    CountPreservedIff(c, ord, rs, key, i);
    if key in KeyList(c, rs) {
      KeyListMeaning(c, rs);
      var j: nat :| j < |rs| && key in Touched(c, rs[j]);
      TouchedMeaning(c, rs[j], key);
      assert CountsFor(c, i, rs[j]) > 0;
      Counted(c, i, rs, j);
    }
  }

  lemma {:induction false} Counted(c: Config, i: nat, rs: seq<Record>, j: nat)
    requires i < |c.kernels| && c.kernels[i].kind.Count? && j < |rs|
    requires Aggregate(c.kernels[i], ZERO, Items(rs[j])).count > 0
    ensures StateAt(c, i, rs, KeyIn(c, rs[j])).count > 0
  {
    var k := c.kernels[i];
    var front, last := rs[..|rs| - 1], rs[|rs| - 1];
    var key := KeyIn(c, rs[j]);
    assert rs == front + [last];
    AtSnoc(c, i, front, last, key);
    if j < |rs| - 1 { Counted(c, i, front, j); }
  }

  // ----- Inclusive minimum and maximum -----

  /** b adds nothing to the extremes of a. */
  predicate Absorbs(a: Summary, b: Summary) {
    Lower(a.lo, b.lo) == a.lo && Upper(a.hi, b.hi) == a.hi
  }

  predicate Extreme(k: Kernel) {
    k.kind.Min? || k.kind.Max?
  }

  lemma GainAbove(c: Config, i: nat, rec: Record, a: Key, b: Key)
    requires i < |c.kernels| && Extreme(c.kernels[i]) && c.kernels[i].inclusive && Above(a, b)
    ensures Gain(c, i, rec, b) == NOTHING || Gain(c, i, rec, a) == Gain(c, i, rec, b)
  {
    if Above(b, KeyIn(c, rec)) { AboveTransitive(a, b, KeyIn(c, rec)); }
  }

  /** The extremes of an entry cover those of the entries below it. */
  lemma {:induction false} ExtremesAbove(c: Config, i: nat, rs: seq<Record>, a: Key, b: Key)
    requires i < |c.kernels| && Extreme(c.kernels[i]) && c.kernels[i].inclusive && Above(a, b)
    ensures Absorbs(At(c, i, rs, a), At(c, i, rs, b))
  {
    hide At, Gain, Extreme;
    if |rs| == 0 {
      AtEmpty(c, i, a);
      AtEmpty(c, i, b);
    } else {
      var front, last := rs[..|rs| - 1], rs[|rs| - 1];
      assert rs == front + [last];
      ExtremesAbove(c, i, front, a, b);
      AtSnoc(c, i, front, last, a);
      AtSnoc(c, i, front, last, b);
      GainAbove(c, i, last, a, b);
      AbsorbsPlus(At(c, i, front, a), At(c, i, front, b), Gain(c, i, last, a), Gain(c, i, last, b));
    }
  }

  lemma AbsorbsPlus(a: Summary, b: Summary, x: Summary, y: Summary)
    requires Absorbs(a, b) && (y == NOTHING || x == y)
    ensures Absorbs(Plus(a, x), Plus(b, y))
  {
  }

  // A summary of an extreme kernel has no other parts.
  predicate OnlyExtremes(o: Summary) {
    o == NOTHING.(lo := o.lo, hi := o.hi)
  }

  lemma {:induction false} ExtremeGain(c: Config, i: nat, rs: seq<Record>, ks: seq<Key>, key: Key)
    requires i < |c.kernels| && Extreme(c.kernels[i]) && c.kernels[i].inclusive
    ensures OnlyExtremes(GainOf(c, i, rs, ks, key)) && Absorbs(At(c, i, rs, key), GainOf(c, i, rs, ks, key))
    ensures key in ks ==> GainOf(c, i, rs, ks, key) == At(c, i, rs, key)
  {
    hide At, Above, GainOf, Plus, OnlyExtremes, Absorbs, Own;
    AtOnlyExtremes(c, i, rs, key);
    NothingAbsorbed(At(c, i, rs, key));
    if |ks| == 0 {
      GainOfNone(c, i, rs, key);
      assert ks == [];
    } else {
      var front, last := ks[..|ks| - 1], ks[|ks| - 1];
      assert ks == front + [last];
      ExtremeGain(c, i, rs, front, key);
      GainOfSnoc(c, i, rs, front, last, key);
      ExtremeStep(c, i, rs, last, key);
      AbsorbBoth(At(c, i, rs, key), GainOf(c, i, rs, front, key), FlushGain(c, i, rs, last, key));
    }
  }

  lemma NothingAbsorbed(a: Summary)
    ensures Absorbs(a, NOTHING) && OnlyExtremes(NOTHING)
  {
  }

  lemma ExtremeStep(c: Config, i: nat, rs: seq<Record>, last: Key, key: Key)
    requires i < |c.kernels| && Extreme(c.kernels[i]) && c.kernels[i].inclusive
    ensures OnlyExtremes(FlushGain(c, i, rs, last, key)) && Absorbs(At(c, i, rs, key), FlushGain(c, i, rs, last, key))
    ensures last == key ==> FlushGain(c, i, rs, last, key) == At(c, i, rs, key)
  {
    hide At, Above, Own, OnlyExtremes, Absorbs;
    AtOnlyExtremes(c, i, rs, last);
    NothingAbsorbed(At(c, i, rs, key));
    if last != key && Above(key, last) { ExtremesAbove(c, i, rs, key, last); }
  }

  lemma AbsorbBoth(m: Summary, a: Summary, b: Summary)
    requires OnlyExtremes(m) && OnlyExtremes(a) && OnlyExtremes(b) && Absorbs(m, a) && Absorbs(m, b)
    ensures OnlyExtremes(Plus(a, b)) && Absorbs(m, Plus(a, b))
    ensures a == m || b == m ==> Plus(a, b) == m
  {
  }

  lemma AtOnlyExtremes(c: Config, i: nat, rs: seq<Record>, key: Key)
    requires i < |c.kernels| && Extreme(c.kernels[i])
    ensures OnlyExtremes(At(c, i, rs, key)) && Own(c, i, rs, key) == At(c, i, rs, key)
    ensures Absorbs(At(c, i, rs, key), At(c, i, rs, key))
  {
    hide StateAt, Total;
  }

  lemma ExtremePreserved(c: Config, ord: Order, rs: seq<Record>, key: Key, i: nat)
    requires WfConfig(c) && RecordsOk(c, rs) && i < |c.kernels| && Extreme(c.kernels[i]) && c.kernels[i].inclusive
    ensures At(c, i, Flush(c, ord, rs), key) == At(c, i, rs, key)
  {
    hide WfConfig, RecordsOk, At, GainOf, KeyList, Flush, Extreme;
    FlushAt(c, ord, rs, key, i);
    ExtremeGain(c, i, rs, KeyList(c, rs), key);
    if key !in KeyList(c, rs) {
      AbsentAt(c, i, rs, key);
      AbsorbedByNothing(GainOf(c, i, rs, KeyList(c, rs), key));
    }
  }

  lemma AbsorbedByNothing(o: Summary)
    requires OnlyExtremes(o) && Absorbs(NOTHING, o)
    ensures o == NOTHING
  {
  }

  // ----- Percentages -----

  predicate Covers(all: bool, key: Key, b: Key) {
    all || b == key || Above(key, b)
  }

  // The exclusive sums of the entries at and below a key, or of all entries.
  function SumOver(c: Config, i: nat, rs: seq<Record>, ks: seq<Key>, key: Key, all: bool): real
    requires i < |c.kernels|
  {
    if |ks| == 0 then 0.0
    else
      var mine := if Covers(all, key, ks[|ks| - 1]) then StateAt(c, i, rs, ks[|ks| - 1]).sum else 0.0;
      SumOver(c, i, rs, ks[..|ks| - 1], key, all) + mine
  }

  // The values of the records whose key is at or below a key, or of all records.
  function RecordSum(c: Config, i: nat, rs: seq<Record>, key: Key, all: bool): real
    requires i < |c.kernels|
  {
    if |rs| == 0 then 0.0
    else
      var mine := if Covers(all, key, KeyIn(c, rs[|rs| - 1])) then Worth(c, i, rs[|rs| - 1]) else 0.0;
      RecordSum(c, i, rs[..|rs| - 1], key, all) + mine
  }

  lemma StateSnoc(c: Config, i: nat, rs: seq<Record>, rec: Record, key: Key)
    requires i < |c.kernels|
    ensures StateAt(c, i, rs + [rec], key) == Effect(c, i, StateAt(c, i, rs, key), rec, key)
  {
    assert (rs + [rec])[..|rs|] == rs;
  }

  lemma {:induction false} SumOverSnoc(c: Config, i: nat, rs: seq<Record>, rec: Record, ks: seq<Key>, key: Key, all: bool)
    requires i < |c.kernels| && c.kernels[i].kind.Percent? && Distinct(ks)
    ensures SumOver(c, i, rs + [rec], ks, key, all)
         == SumOver(c, i, rs, ks, key, all)
          + if KeyIn(c, rec) in ks && Covers(all, key, KeyIn(c, rec)) then Worth(c, i, rec) else 0.0
  {
    hide StateAt, Effect, KeyIn, Distinct, Covers;
    if |ks| > 0 {
      var front, last := ks[..|ks| - 1], ks[|ks| - 1];
      FrontDistinct(ks);
      SumOverSnoc(c, i, rs, rec, front, key, all);
      StateSnoc(c, i, rs, rec, last);
      PercentStep(c, i, StateAt(c, i, rs, last), rec, last);
    }
  }

  lemma {:induction false} SumOverNone(c: Config, i: nat, ks: seq<Key>, key: Key, all: bool)
    requires i < |c.kernels|
    ensures SumOver(c, i, [], ks, key, all) == 0.0
  {
    if |ks| > 0 { SumOverNone(c, i, ks[..|ks| - 1], key, all); }
  }

  /** Summing entry by entry is summing record by record. */
  lemma {:induction false} Regroup(c: Config, i: nat, rs: seq<Record>, ks: seq<Key>, key: Key, all: bool)
    requires i < |c.kernels| && c.kernels[i].kind.Percent? && Distinct(ks)
    requires forall j: nat | j < |rs| :: KeyIn(c, rs[j]) in ks
    ensures SumOver(c, i, rs, ks, key, all) == RecordSum(c, i, rs, key, all)
  {
    hide SumOver, KeyIn, Distinct, Covers;
    if |rs| == 0 {
      assert rs == [];
      SumOverNone(c, i, ks, key, all);
    } else {
      var front, last := rs[..|rs| - 1], rs[|rs| - 1];
      assert rs == front + [last];
      Regroup(c, i, front, ks, key, all);
      SumOverSnoc(c, i, front, last, ks, key, all);
    }
  }

  /** The inclusive sum of an entry is the sum over exactly the records whose key is at or below it,
      and the total is the sum over all records. */
  lemma {:induction false} PercentMeaning(c: Config, i: nat, rs: seq<Record>, key: Key)
    requires i < |c.kernels| && c.kernels[i].kind.Percent?
    ensures c.kernels[i].inclusive ==> StateAt(c, i, rs, key).isum == RecordSum(c, i, rs, key, false)
    ensures Total(c, i, rs) == RecordSum(c, i, rs, key, true)
  {
    hide KeyIn, Above;
    if |rs| > 0 {
      PercentMeaning(c, i, rs[..|rs| - 1], key);
      PercentStep(c, i, StateAt(c, i, rs[..|rs| - 1], key), rs[|rs| - 1], key);
    }
  }

  lemma KeysListed(c: Config, rs: seq<Record>, j: nat)
    requires j < |rs|
    ensures KeyIn(c, rs[j]) in KeyList(c, rs)
  {
    KeyListMeaning(c, rs);
    assert KeyIn(c, rs[j]) in Touched(c, rs[j]);
  }

  /** The exclusive sums of the entries add up to the total. */
  lemma SumsMakeTotal(c: Config, i: nat, rs: seq<Record>, key: Key)
    requires i < |c.kernels| && c.kernels[i].kind.Percent?
    ensures SumOver(c, i, rs, KeyList(c, rs), key, true) == Total(c, i, rs)
    ensures c.kernels[i].inclusive ==> SumOver(c, i, rs, KeyList(c, rs), key, false) == StateAt(c, i, rs, key).isum
  {
    hide SumOver, KeyIn, Distinct, RecordSum, StateAt, KeyList;
    KeyListMeaning(c, rs);
    forall j: nat | j < |rs| ensures KeyIn(c, rs[j]) in KeyList(c, rs) { KeysListed(c, rs, j); }
    Regroup(c, i, rs, KeyList(c, rs), key, true);
    Regroup(c, i, rs, KeyList(c, rs), key, false);
    PercentMeaning(c, i, rs, key);
  }

  lemma {:induction false} PercentGain(c: Config, i: nat, rs: seq<Record>, ks: seq<Key>, key: Key)
    requires i < |c.kernels| && c.kernels[i].kind.Percent? && c.kernels[i].inclusive && Distinct(ks)
    ensures GainOf(c, i, rs, ks, key)
         == if Total(c, i, rs) > 0.0
            then NOTHING.(sum := if key in ks then StateAt(c, i, rs, key).sum else 0.0,
                          isum := SumOver(c, i, rs, ks, key, false))
            else NOTHING
  {
    hide StateAt, Distinct, Above, Total, GainOf, FlushGain, Covers;
    if |ks| == 0 {
      GainOfNone(c, i, rs, key);
      assert ks == [];
    } else {
      var front, last := ks[..|ks| - 1], ks[|ks| - 1];
      FrontDistinct(ks);
      PercentGain(c, i, rs, front, key);
      GainOfSnoc(c, i, rs, front, last, key);
      PercentFlushGain(c, i, rs, last, key);
    }
  }

  lemma PercentFlushGain(c: Config, i: nat, rs: seq<Record>, from: Key, key: Key)
    requires i < |c.kernels| && c.kernels[i].kind.Percent? && c.kernels[i].inclusive
    ensures FlushGain(c, i, rs, from, key)
         == if Total(c, i, rs) > 0.0
            then NOTHING.(sum := if from == key then StateAt(c, i, rs, from).sum else 0.0,
                          isum := if Covers(false, key, from) then StateAt(c, i, rs, from).sum else 0.0)
            else NOTHING
  {
    hide StateAt, Above, Total;
  }

  /** What re-aggregating the flush of a percentage shows. */
  lemma PercentFlushed(c: Config, ord: Order, rs: seq<Record>, key: Key, i: nat)
    requires WfConfig(c) && RecordsOk(c, rs) && i < |c.kernels| && c.kernels[i].kind.Percent?
    ensures At(c, i, Flush(c, ord, rs), key) == if Total(c, i, rs) > 0.0 then At(c, i, rs, key) else NOTHING
  {
    hide WfConfig, RecordsOk, GainOf, KeyList, Flush, StateAt, SumOver, Total, NonNegative;
    var ks := KeyList(c, rs);
    FlushAt(c, ord, rs, key, i);
    KeyListMeaning(c, rs);
    if c.kernels[i].inclusive {
      PercentGain(c, i, rs, ks, key);
      SumsMakeTotal(c, i, rs, key);
    } else {
      ExclusiveGain(c, i, rs, ks, key);
      PercentBounds(c, i, rs, key);
    }
    if key !in ks { AbsentAt(c, i, rs, key); }
  }

  /** A percentage is reproduced exactly if the total is positive or the key has no sums to lose. */
  lemma PercentPreservedIff(c: Config, ord: Order, rs: seq<Record>, key: Key, i: nat)
    requires WfConfig(c) && RecordsOk(c, rs) && i < |c.kernels| && c.kernels[i].kind.Percent?
    ensures At(c, i, Flush(c, ord, rs), key) == At(c, i, rs, key)
       <==> Total(c, i, rs) > 0.0 || (StateAt(c, i, rs, key).sum == 0.0 && StateAt(c, i, rs, key).isum == 0.0)
  {
    hide WfConfig, RecordsOk, Flush, StateAt, Total;
    PercentFlushed(c, ord, rs, key, i);
  }

  lemma PercentPreserved(c: Config, ord: Order, rs: seq<Record>, key: Key, i: nat)
    requires WfConfig(c) && RecordsOk(c, rs) && NonNegative(c, rs) && i < |c.kernels| && c.kernels[i].kind.Percent?
    ensures At(c, i, Flush(c, ord, rs), key) == At(c, i, rs, key)
  {
    hide WfConfig, RecordsOk, Flush, StateAt, Total, NonNegative, At;
    PercentPreservedIff(c, ord, rs, key, i);
    PercentBounds(c, i, rs, key);
  }

  lemma {:induction false} FlushedTotal(c: Config, ord: Order, rs: seq<Record>, ks: seq<Key>, key: Key, i: nat)
    requires WfConfig(c) && RecordsOk(c, rs) && i < |c.kernels| && c.kernels[i].kind.Percent?
    requires forall j: nat | j < |ks| :: Canonical(c, ks[j])
    ensures Total(c, i, FlushKeys(c, ord, rs, ks)) == if Total(c, i, rs) > 0.0 then SumOver(c, i, rs, ks, key, true) else 0.0
  {
    hide WfConfig, RecordsOk, Canonical, StateAt, FlushKeys, FlushRecord, Aggregate, Items, Total;
    if |ks| == 0 {
      NoKeysFlushed(c, ord, rs, ks);
      NoTotal(c, i);
    } else {
      var front, last := ks[..|ks| - 1], ks[|ks| - 1];
      FlushedTotal(c, ord, rs, front, key, i);
      FlushedAggregate(c, ord, rs, last, i);
      LastFlushed(c, ord, rs, ks);
      TotalSnoc(c, i, FlushKeys(c, ord, rs, front), FlushRecord(c, ord, rs, last));
    }
  }

  lemma NoTotal(c: Config, i: nat)
    requires i < |c.kernels|
    ensures Total(c, i, []) == 0.0
  {
  }

  lemma TotalSnoc(c: Config, i: nat, rs: seq<Record>, rec: Record)
    requires i < |c.kernels|
    ensures Total(c, i, rs + [rec]) == Total(c, i, rs) + Aggregate(c.kernels[i], ZERO, Items(rec)).sum
  {
    hide Aggregate, Items;
    assert (rs + [rec])[..|rs|] == rs;
  }

  lemma {:induction false} FlushLength(c: Config, ord: Order, rs: seq<Record>, ks: seq<Key>)
    ensures |FlushKeys(c, ord, rs, ks)| == |ks|
    ensures forall j: nat | j < |ks| :: FlushKeys(c, ord, rs, ks)[j] == FlushRecord(c, ord, rs, ks[j])
  {
    hide FlushRecord;
    if |ks| > 0 { FlushLength(c, ord, rs, ks[..|ks| - 1]); }
  }

  /** Re-aggregating a flush reproduces the total. */
  lemma TotalPreserved(c: Config, ord: Order, rs: seq<Record>, i: nat)
    requires WfConfig(c) && RecordsOk(c, rs) && NonNegative(c, rs) && i < |c.kernels| && c.kernels[i].kind.Percent?
    ensures Total(c, i, Flush(c, ord, rs)) == Total(c, i, rs)
  {
    hide WfConfig, RecordsOk, Canonical, FlushKeys, KeyList, SumOver, Total, StateAt;
    var ks := KeyList(c, rs);
    var key := Key([], [], []);
    forall j: nat | j < |ks| ensures Canonical(c, ks[j]) { KeyListCanonical(c, rs, ks[j]); }
    FlushedTotal(c, ord, rs, ks, key, i);
    SumsMakeTotal(c, i, rs, key);
    PercentBounds(c, i, rs, key);
  }

  // ----- Inclusive sums -----

  predicate Summing(k: Kernel) {
    k.inclusive && (k.kind.Sum? || k.kind.Scale?)
  }

  /** The inclusive sum of an entry is the sum over exactly the records whose key is at or below it. */
  lemma {:induction false} InclusiveSumMeaning(c: Config, i: nat, rs: seq<Record>, key: Key)
    requires i < |c.kernels| && Summing(c.kernels[i])
    ensures StateAt(c, i, rs, key).sum == RecordSum(c, i, rs, key, false)
  {
    hide KeyIn, Above;
    if |rs| > 0 {
      InclusiveSumMeaning(c, i, rs[..|rs| - 1], key);
      SumStep(c, i, StateAt(c, i, rs[..|rs| - 1], key), rs[|rs| - 1], key);
    }
  }

  lemma SumStep(c: Config, i: nat, s: Acc, rec: Record, key: Key)
    requires i < |c.kernels| && Summing(c.kernels[i])
    ensures Effect(c, i, s, rec, key).sum == s.sum + if Covers(false, key, KeyIn(c, rec)) then Worth(c, i, rec) else 0.0
  {
    var k := c.kernels[i];
    AggregateAdds(k, s, Items(rec));
    assert Observe(k, Aggregate(k, s, Items(rec))).sum == s.sum + Observe(k, Aggregate(k, ZERO, Items(rec))).sum;
  }

  // The inclusive sums of the entries strictly below a key.
  function BelowSum(c: Config, i: nat, rs: seq<Record>, ks: seq<Key>, key: Key): real
    requires i < |c.kernels|
  {
    if |ks| == 0 then 0.0
    else
      var mine := if Above(key, ks[|ks| - 1]) then StateAt(c, i, rs, ks[|ks| - 1]).sum else 0.0;
      BelowSum(c, i, rs, ks[..|ks| - 1], key) + mine
  }

  /** b lies strictly below a and at or above d. */
  predicate Between(a: Key, b: Key, d: Key) {
    Above(a, b) && (b == d || Above(b, d))
  }

  function Hits(ks: seq<Key>, a: Key, d: Key): nat {
    if |ks| == 0 then 0 else Hits(ks[..|ks| - 1], a, d) + if Between(a, ks[|ks| - 1], d) then 1 else 0
  }

  function Times(ks: seq<Key>, d: Key): nat {
    if |ks| == 0 then 0 else Times(ks[..|ks| - 1], d) + if ks[|ks| - 1] == d then 1 else 0
  }

  lemma {:induction false} OnceEach(ks: seq<Key>, d: Key)
    requires Distinct(ks)
    ensures Times(ks, d) == if d in ks then 1 else 0
  {
    if |ks| > 0 {
      FrontDistinct(ks);
      OnceEach(ks[..|ks| - 1], d);
    }
  }

  lemma {:induction false} NoHits(ks: seq<Key>, a: Key, d: Key)
    requires !Above(a, d)
    ensures Hits(ks, a, d) == 0
  {
    if |ks| > 0 {
      NoHits(ks[..|ks| - 1], a, d);
      var b := ks[|ks| - 1];
      if Between(a, b, d) && b != d { AboveTransitive(a, b, d); }
    }
  }

  lemma BetweenStep(a: Key, b: Key, d: Key)
    requires Above(a, d)
    ensures |d.nested| > 1 && Between(a, b, d) == (b == d || Between(a, b, ParentKey(d, 1)))
    ensures !Between(a, d, ParentKey(d, 1))
  {
    var p := ParentKey(d, 1);
    assert Above(p, d);
    if Above(b, p) { AboveTransitive(b, p, d); }
    if Above(b, d) && b != p {
      assert d.nested[1..][|p.nested| - |b.nested|..] == d.nested[|d.nested| - |b.nested|..];
    }
  }

  lemma {:induction false} HitsStep(ks: seq<Key>, a: Key, d: Key)
    requires Above(a, d)
    ensures |d.nested| > 1 && Hits(ks, a, d) == Times(ks, d) + Hits(ks, a, ParentKey(d, 1))
  {
    BetweenStep(a, d, d);
    if |ks| > 0 {
      hide Between, Above;
      HitsStep(ks[..|ks| - 1], a, d);
      BetweenStep(a, ks[|ks| - 1], d);
    }
  }

  /** The entries strictly below a and at or above d are as many as d is deeper than a. */
  lemma {:induction false} HitsDepth(ks: seq<Key>, a: Key, d: Key)
    requires Distinct(ks) && Above(a, d) && forall b: Key | Between(a, b, d) :: b in ks
    ensures Hits(ks, a, d) == |d.nested| - |a.nested|
    decreases |d.nested|
  {
    HitsStep(ks, a, d);
    OnceEach(ks, d);
    assert Between(a, d, d);
    var p := ParentKey(d, 1);
    assert p.nested[|p.nested| - |a.nested|..] == d.nested[|d.nested| - |a.nested|..];
    if Above(a, p) {
      forall b: Key | Between(a, b, p) ensures b in ks { BetweenStep(a, b, d); }
      HitsDepth(ks, a, p);
    } else {
      NoHits(ks, a, p);
    }
  }

  lemma {:induction false} BelowSumSnoc(c: Config, i: nat, rs: seq<Record>, rec: Record, ks: seq<Key>, key: Key)
    requires i < |c.kernels| && Summing(c.kernels[i])
    ensures BelowSum(c, i, rs + [rec], ks, key)
         == BelowSum(c, i, rs, ks, key) + Worth(c, i, rec) * Hits(ks, key, KeyIn(c, rec)) as real
  {
    hide StateAt, Effect, KeyIn, Above, Worth, Summing;
    if |ks| > 0 {
      var front, last := ks[..|ks| - 1], ks[|ks| - 1];
      BelowSumSnoc(c, i, rs, rec, front, key);
      StateSnoc(c, i, rs, rec, last);
      SumStep(c, i, StateAt(c, i, rs, last), rec, last);
      var w := Worth(c, i, rec);
      var n := Hits(front, key, KeyIn(c, rec));
      assert w * (n + 1) as real == w * n as real + w;
    }
  }

  /** The extra weight of the records below a key: each counts once for every level it is deeper. */
  function Overcount(c: Config, i: nat, rs: seq<Record>, key: Key): real
    requires i < |c.kernels|
  {
    if |rs| == 0 then 0.0
    else
      var k := KeyIn(c, rs[|rs| - 1]);
      var mine := if Above(key, k) then Worth(c, i, rs[|rs| - 1]) * (|k.nested| - |key.nested|) as real else 0.0;
      Overcount(c, i, rs[..|rs| - 1], key) + mine
  }

  lemma {:induction false} BelowSumMeaning(c: Config, i: nat, rs: seq<Record>, ks: seq<Key>, key: Key)
    requires i < |c.kernels| && Summing(c.kernels[i]) && Distinct(ks)
    requires forall j: nat, b: Key | j < |rs| && Between(key, b, KeyIn(c, rs[j])) :: b in ks
    ensures BelowSum(c, i, rs, ks, key) == Overcount(c, i, rs, key)
  {
    hide BelowSum, KeyIn, Distinct, Between, Worth, Summing, Hits;
    if |rs| == 0 {
      assert rs == [];
      BelowSumNone(c, i, ks, key);
    } else {
      var front, last := rs[..|rs| - 1], rs[|rs| - 1];
      assert rs == front + [last];
      BelowSumMeaning(c, i, front, ks, key);
      BelowSumSnoc(c, i, front, last, ks, key);
      var k := KeyIn(c, last);
      if Above(key, k) {
        assert k == KeyIn(c, rs[|rs| - 1]);
        HitsDepth(ks, key, k);
      } else {
        NoHits(ks, key, k);
      }
    }
  }

  lemma {:induction false} BelowSumNone(c: Config, i: nat, ks: seq<Key>, key: Key)
    requires i < |c.kernels|
    ensures BelowSum(c, i, [], ks, key) == 0.0
  {
    if |ks| > 0 { BelowSumNone(c, i, ks[..|ks| - 1], key); }
  }

  lemma NotAboveItself(key: Key)
    ensures !Above(key, key)
  {
  }

  lemma {:induction false} SummingGain(c: Config, i: nat, rs: seq<Record>, ks: seq<Key>, key: Key)
    requires i < |c.kernels| && Summing(c.kernels[i]) && Distinct(ks)
    requires forall b: Key | Above(key, b) && At(c, i, rs, b).any :: At(c, i, rs, key).any
    ensures var own := if key in ks then StateAt(c, i, rs, key).sum else 0.0;
            var g := GainOf(c, i, rs, ks, key);
            && g == NOTHING.(any := g.any, sum := own + BelowSum(c, i, rs, ks, key))
            && (g.any ==> At(c, i, rs, key).any)
            && (key in ks ==> g.any == At(c, i, rs, key).any)
  {
    hide StateAt, Distinct, Above, Total;
    if |ks| > 0 {
      FrontDistinct(ks);
      NotAboveItself(key);
      SummingGain(c, i, rs, ks[..|ks| - 1], key);
    }
  }

  /** An entry has seen whatever an entry below it has seen. */
  lemma {:induction false} SeenAbove(c: Config, i: nat, rs: seq<Record>, a: Key, b: Key)
    requires i < |c.kernels| && Summing(c.kernels[i]) && Above(a, b) && At(c, i, rs, b).any
    ensures At(c, i, rs, a).any
  {
    hide At, Gain, Above, Summing;
    if |rs| == 0 {
      assert rs == [];
      AtEmpty(c, i, b);
    } else {
      var front, last := rs[..|rs| - 1], rs[|rs| - 1];
      assert rs == front + [last];
      AtSnoc(c, i, front, last, a);
      AtSnoc(c, i, front, last, b);
      if At(c, i, front, b).any { SeenAbove(c, i, front, a, b); } else { GainedAbove(c, i, last, a, b); }
    }
  }

  lemma GainedAbove(c: Config, i: nat, rec: Record, a: Key, b: Key)
    requires i < |c.kernels| && Summing(c.kernels[i]) && Above(a, b) && Gain(c, i, rec, b).any
    ensures Gain(c, i, rec, a).any
  {
    hide KeyIn, Above, Aggregate, Items;
    if KeyIn(c, rec) != b { AboveTransitive(a, b, KeyIn(c, rec)); }
  }

  lemma BetweenListed(c: Config, rs: seq<Record>, j: nat, key: Key, b: Key)
    requires AnyInclusive(c) && j < |rs| && Between(key, b, KeyIn(c, rs[j]))
    ensures b in KeyList(c, rs)
  {
    KeysListed(c, rs, j);
    if b != KeyIn(c, rs[j]) { TableClosed(c, rs, b, KeyIn(c, rs[j])); }
  }

  /** Re-aggregating an inclusive sum counts every record once more for every level it lies below the
      key, so the sum is reproduced exactly if these extra counts cancel out. */
  lemma InclusiveSumPreservedIff(c: Config, ord: Order, rs: seq<Record>, key: Key, i: nat)
    requires WfConfig(c) && RecordsOk(c, rs) && i < |c.kernels| && Summing(c.kernels[i])
    ensures At(c, i, Flush(c, ord, rs), key).sum == RecordSum(c, i, rs, key, false) + Overcount(c, i, rs, key)
    ensures At(c, i, Flush(c, ord, rs), key) == At(c, i, rs, key) <==> Overcount(c, i, rs, key) == 0.0
  {
    hide WfConfig, RecordsOk, GainOf, KeyList, Flush, StateAt, BelowSum, Overcount, RecordSum, Between, Above, KeyIn;
    var ks := KeyList(c, rs);
    assert AnyInclusive(c);
    FlushAt(c, ord, rs, key, i);
    KeyListMeaning(c, rs);
    forall b: Key | Above(key, b) && At(c, i, rs, b).any ensures At(c, i, rs, key).any { SeenAbove(c, i, rs, key, b); }
    SummingGain(c, i, rs, ks, key);
    forall j: nat, b: Key | j < |rs| && Between(key, b, KeyIn(c, rs[j])) ensures b in ks {
      BetweenListed(c, rs, j, key, b);
    }
    BelowSumMeaning(c, i, rs, ks, key);
    InclusiveSumMeaning(c, i, rs, key);
    if key !in ks { AbsentAt(c, i, rs, key); }
  }

  // ----- All together -----

  /** Kernels that reproduce their result from flushed records: counts if no kernel is inclusive, and
      all others but inclusive sums. */
  predicate Composable(c: Config, k: Kernel) {
    (k.kind.Count? ==> !AnyInclusive(c)) && !Summing(k)
  }

  lemma FlushPreserves(c: Config, ord: Order, rs: seq<Record>, key: Key, i: nat)
    requires WfConfig(c) && Mergeable(c, rs) && i < |c.kernels| && Composable(c, c.kernels[i])
    ensures At(c, i, Flush(c, ord, rs), key) == At(c, i, rs, key)
  {
    hide RecordsOk, NonNegative, EveryCounts, At, Flush, AnyInclusive;
    if c.kernels[i].kind.Count? {
      CountPreserved(c, ord, rs, key, i);
    } else if c.kernels[i].kind.Percent? {
      PercentPreserved(c, ord, rs, key, i);
    } else if !c.kernels[i].inclusive {
      ExclusivePreserved(c, ord, rs, key, i);
    } else {
      ExtremePreserved(c, ord, rs, key, i);
    }
  }

  lemma {:induction false} TouchesFlush(c: Config, ord: Order, rs: seq<Record>, ks: seq<Key>, a: Key)
    requires WfConfig(c) && forall j: nat | j < |ks| :: Canonical(c, ks[j])
    ensures Touches(c, FlushKeys(c, ord, rs, ks), a)
       <==> exists j: nat :: j < |ks| && (a == ks[j] || (AnyInclusive(c) && Above(a, ks[j])))
  {
    hide WfConfig, Canonical, FlushRecord, FlushKeys, Touched, Above, KeyIn, AnyInclusive;
    FlushLength(c, ord, rs, ks);
    WfConfigKeys(c);
    var fl := FlushKeys(c, ord, rs, ks);
    forall j: nat | j < |ks|
      ensures a in Touched(c, fl[j]) <==> a == ks[j] || (AnyInclusive(c) && Above(a, ks[j]))
    {
      FlushedKey(c, ord, rs, ks[j]);
      TouchedMeaning(c, fl[j], a);
    }
  }

  /** Re-aggregating a flush makes the same entries. */
  lemma KeysPreserved(c: Config, ord: Order, rs: seq<Record>, a: Key)
    requires WfConfig(c)
    ensures a in KeyList(c, Flush(c, ord, rs)) <==> a in KeyList(c, rs)
  {
    hide WfConfig, Canonical, Touches, KeyList, FlushKeys, Above, AnyInclusive;
    var ks := KeyList(c, rs);
    KeyListMeaning(c, Flush(c, ord, rs));
    forall j: nat | j < |ks| ensures Canonical(c, ks[j]) { KeyListCanonical(c, rs, ks[j]); }
    TouchesFlush(c, ord, rs, ks, a);
    forall j: nat | j < |ks| && AnyInclusive(c) && Above(a, ks[j]) ensures a in ks { TableClosed(c, rs, a, ks[j]); }
  }

  lemma OwnOk(c: Config, i: nat, rs: seq<Record>, key: Key)
    requires i < |c.kernels| && RecordsOk(c, rs)
    ensures Settled(c.kernels[i], Own(c, i, rs, key))
    ensures NonNegative(c, rs) && c.kernels[i].kind.Percent? ==> Own(c, i, rs, key).sum >= 0.0
    ensures c.kernels[i].kind.Count? ==> Own(c, i, rs, key).n > 0
  {
    hide RecordsOk, NonNegative, StateAt, Total;
    AtSettled(c, i, rs, key);
    if c.kernels[i].kind.Percent? { PercentBounds(c, i, rs, key); }
  }

  lemma FlushedRecordOk(c: Config, ord: Order, rs: seq<Record>, key: Key, i: nat)
    requires WfConfig(c) && RecordsOk(c, rs) && Canonical(c, key) && i < |c.kernels|
    ensures var k := c.kernels[i];
            var s := Aggregate(k, ZERO, Items(FlushRecord(c, ord, rs, key)));
            && Settled(k, Observe(k, s)) && (NonNegative(c, rs) && k.kind.Percent? ==> s.sum >= 0.0)
            && (k.kind.Count? ==> s.count > 0)
  {
    hide RecordsOk, NonNegative, Canonical, WfConfig, FlushRecord, Aggregate, Items, Own, Settled;
    FlushedAggregate(c, ord, rs, key, i);
    OwnOk(c, i, rs, key);
  }

  /** Flushed records can be re-aggregated again. */
  lemma FlushOk(c: Config, ord: Order, rs: seq<Record>)
    requires WfConfig(c) && RecordsOk(c, rs)
    ensures RecordsOk(c, Flush(c, ord, rs)) && EveryCounts(c, Flush(c, ord, rs))
    ensures NonNegative(c, rs) ==> NonNegative(c, Flush(c, ord, rs))
  {
    hide AnyInclusive, Canonical, WfConfig, KeyList, FlushKeys, FlushRecord, Settled, Observe, Aggregate;
    var ks := KeyList(c, rs);
    FlushLength(c, ord, rs, ks);
    forall i: nat, j: nat | i < |c.kernels| && j < |ks|
      ensures var s := Aggregate(c.kernels[i], ZERO, Items(Flush(c, ord, rs)[j]));
              && Settled(c.kernels[i], Observe(c.kernels[i], s))
              && (NonNegative(c, rs) && c.kernels[i].kind.Percent? ==> s.sum >= 0.0)
              && (c.kernels[i].kind.Count? ==> s.count > 0)
    {
      KeyListCanonical(c, rs, ks[j]);
      FlushedRecordOk(c, ord, rs, ks[j], i);
    }
  }

  /** Two streams with the same entries and, for every composable kernel, the same visible state. */
  ghost predicate SameResults(c: Config, rs: seq<Record>, ss: seq<Record>) {
    && (forall a: Key :: a in KeyList(c, rs) <==> a in KeyList(c, ss))
    && (forall i: nat, a: Key | i < |c.kernels| && Composable(c, c.kernels[i]) :: At(c, i, rs, a) == At(c, i, ss, a))
    && (forall i: nat | i < |c.kernels| && c.kernels[i].kind.Percent? :: Total(c, i, rs) == Total(c, i, ss))
  }

  /** Streams with the same results report the same values for every key. */
  lemma SameReports(c: Config, rs: seq<Record>, ss: seq<Record>, i: nat, key: Key)
    requires SameResults(c, rs, ss) && i < |c.kernels| && Composable(c, c.kernels[i])
    ensures Report(c.kernels[i], StateAt(c, i, rs, key), Total(c, i, rs))
         == Report(c.kernels[i], StateAt(c, i, ss, key), Total(c, i, ss))
  {
    hide KeyList, StateAt, Total, Report;
    assert At(c, i, rs, key) == At(c, i, ss, key);
    ReportFromObservation(c.kernels[i], StateAt(c, i, rs, key), StateAt(c, i, ss, key), Total(c, i, rs));
    if !c.kernels[i].kind.Percent? {
      TotalUnused(c.kernels[i], StateAt(c, i, ss, key), Total(c, i, rs), Total(c, i, ss));
    }
  }

  lemma TotalUnused(k: Kernel, s: Acc, t: real, u: real)
    requires !k.kind.Percent?
    ensures Report(k, s, t) == Report(k, s, u)
  {
  }

  lemma KeyListJoin(c: Config, rs: seq<Record>, ss: seq<Record>, a: Key)
    ensures a in KeyList(c, rs + ss) <==> a in KeyList(c, rs) || a in KeyList(c, ss)
  {
    hide Touched, KeyList;
    KeyListMeaning(c, rs);
    KeyListMeaning(c, ss);
    KeyListMeaning(c, rs + ss);
    if Touches(c, rs, a) {
      var j: nat :| j < |rs| && a in Touched(c, rs[j]);
      assert (rs + ss)[j] == rs[j];
    }
    if Touches(c, ss, a) {
      var j: nat :| j < |ss| && a in Touched(c, ss[j]);
      assert (rs + ss)[|rs| + j] == ss[j];
    }
  }

  /** Joining streams with the same results gives the same results. */
  lemma SameJoin(c: Config, rs: seq<Record>, rs': seq<Record>, ss: seq<Record>, ss': seq<Record>)
    requires SameResults(c, rs, rs') && SameResults(c, ss, ss')
    ensures SameResults(c, rs + ss, rs' + ss')
  {
    hide KeyList, At, Total, Composable;
    forall a: Key ensures a in KeyList(c, rs + ss) <==> a in KeyList(c, rs' + ss') {
      KeyListJoin(c, rs, ss, a);
      KeyListJoin(c, rs', ss', a);
    }
    forall i: nat, a: Key | i < |c.kernels| && Composable(c, c.kernels[i])
      ensures At(c, i, rs + ss, a) == At(c, i, rs' + ss', a)
    {
      AtJoin(c, i, rs, ss, a);
      AtJoin(c, i, rs', ss', a);
    }
    forall i: nat | i < |c.kernels| && c.kernels[i].kind.Percent?
      ensures Total(c, i, rs + ss) == Total(c, i, rs' + ss')
    {
      TotalJoin(c, i, rs, ss);
      TotalJoin(c, i, rs', ss');
    }
  }

  /** Aggregating the flush of another aggregator is aggregating all that it aggregated. */
  lemma FlushSameResults(c: Config, ord: Order, rs: seq<Record>)
    requires WfConfig(c) && Mergeable(c, rs)
    ensures SameResults(c, Flush(c, ord, rs), rs)
  {
    hide KeyList, At, Total, Composable, Flush, WfConfig, RecordsOk, NonNegative, EveryCounts;
    forall a: Key ensures a in KeyList(c, Flush(c, ord, rs)) <==> a in KeyList(c, rs) { KeysPreserved(c, ord, rs, a); }
    forall i: nat, a: Key | i < |c.kernels| && Composable(c, c.kernels[i])
      ensures At(c, i, Flush(c, ord, rs), a) == At(c, i, rs, a)
    {
      FlushPreserves(c, ord, rs, a, i);
    }
    forall i: nat | i < |c.kernels| && c.kernels[i].kind.Percent?
      ensures Total(c, i, Flush(c, ord, rs)) == Total(c, i, rs)
    {
      TotalPreserved(c, ord, rs, i);
    }
  }

  // ----- Inputs on which a kernel does not reproduce its result -----

  function ExampleKernel(kind: Kind, inclusive: bool, n: nat): Kernel {
    Kernel(kind, inclusive, n, n + 1, n + 2, n + 3, n + 4)
  }

  // All references are grouped; attribute 1 is nested.
  function ExampleConfig(kernels: seq<Kernel>): Config {
    Config(Grouping(true, false, {}, {1}), kernels)
  }

  const OUTER: Key := Key([Pair(1, "main")], [], [])
  const INNER: Key := Key([Pair(1, "solve"), Pair(1, "main")], [], [])

  function ExampleRecord(key: Key, attr: Attr, value: real): Record {
    KeyEntries(key) + Immediates([Pair(attr, value)])
  }

  lemma ExampleMeaning(kernels: seq<Kernel>, key: Key, attr: Attr, value: real)
    requires key == OUTER || key == INNER
    ensures KeyIn(ExampleConfig(kernels), ExampleRecord(key, attr, value)) == key
    ensures Items(ExampleRecord(key, attr, value)) == [Pair(attr, value)]
  {
    var c := ExampleConfig(kernels);
    KeyOfFlushed(c.g, Plain(), key, [Pair(attr, value)]);
    ItemsKey(key, [Pair(attr, value)]);
  }

  lemma ExampleWf(k: Kernel, l: Kernel)
    requires exists kind: Kind, inclusive: bool :: WfKernel(ExampleKernel(kind, inclusive, 10)) && k == ExampleKernel(kind, inclusive, 10)
    requires exists kind: Kind, inclusive: bool :: WfKernel(ExampleKernel(kind, inclusive, 20)) && l == ExampleKernel(kind, inclusive, 20)
    ensures WfConfig(ExampleConfig([k])) && WfConfig(ExampleConfig([k, l]))
  {
    assert Reads(k) <= {10, 11, 12, 13, 14} && Reports(k) <= {10, 11, 12, 13, 14};
    assert Reads(l) <= {20, 21, 22, 23, 24} && Reports(l) <= {20, 21, 22, 23, 24};
  }

  lemma StateOne(c: Config, i: nat, rec: Record, key: Key)
    requires i < |c.kernels|
    ensures StateAt(c, i, [rec], key) == Effect(c, i, ZERO, rec, key)
    ensures Total(c, i, [rec]) == Worth(c, i, rec)
  {
    assert [rec][..0] == [] && [rec][|[rec]| - 1] == rec;
  }

  lemma SumsOne(c: Config, i: nat, rec: Record, key: Key)
    requires i < |c.kernels|
    ensures RecordSum(c, i, [rec], key, false) == if Covers(false, key, KeyIn(c, rec)) then Worth(c, i, rec) else 0.0
    ensures Overcount(c, i, [rec], key)
         == if Above(key, KeyIn(c, rec)) then Worth(c, i, rec) * (|KeyIn(c, rec).nested| - |key.nested|) as real else 0.0
  {
    hide KeyIn, Worth, Above, Covers;
    assert [rec][..0] == [] && [rec][|[rec]| - 1] == rec;
  }

  lemma ReadOne(k: Kernel, s: Acc, x: Item)
    ensures Aggregate(k, s, [x])
         == if x.attr in Reads(k) then Add(k, s, x) else if k.kind.Count? then s.(count := s.count + 1) else s
  {
    assert [x][1..] == [];
  }

  lemma OneOk(c: Config, rec: Record, x: Item)
    requires Items(rec) == [x]
    requires forall i: nat | i < |c.kernels| :: x.attr !in Reports(c.kernels[i]) && WfKernel(c.kernels[i])
    ensures RecordOk(c, rec)
  {
    forall i: nat | i < |c.kernels|
      ensures Settled(c.kernels[i], Observe(c.kernels[i], Aggregate(c.kernels[i], ZERO, Items(rec))))
    {
      RawSettled(c.kernels[i], ZERO, Items(rec));
    }
  }

  /** A record two levels deep is counted twice at the outer level. */
  lemma InclusiveSumExample()
    ensures var c := ExampleConfig([ExampleKernel(Sum, true, 10)]);
            var rs := [ExampleRecord(INNER, 10, 1.0)];
            && WfConfig(c) && RecordsOk(c, rs)
            && At(c, 0, rs, OUTER).sum == 1.0 && At(c, 0, Flush(c, Plain(), rs), OUTER).sum == 2.0
  {
    hide ExampleRecord, KeyIn, StateAt, Flush, RecordSum, Overcount, Aggregate, RecordOk, WfConfig;
    var k := ExampleKernel(Sum, true, 10);
    var c := ExampleConfig([k]);
    var rec := ExampleRecord(INNER, 10, 1.0);
    ExampleWf(k, ExampleKernel(Min, true, 20));
    ExampleMeaning([k], INNER, 10, 1.0);
    OneOk(c, rec, Pair(10, 1.0));
    ReadOne(k, ZERO, Pair(10, 1.0));
    SumsOne(c, 0, rec, OUTER);
    assert Above(OUTER, INNER);
    InclusiveSumPreservedIff(c, Plain(), [rec], OUTER, 0);
    InclusiveSumMeaning(c, 0, [rec], OUTER);
  }

  lemma PercentOne(key: Key, value: real, at: Key)
    requires key == OUTER || key == INNER
    ensures var c := ExampleConfig([ExampleKernel(Percent, false, 10)]);
            var rec := ExampleRecord(key, 10, value);
            && RecordOk(c, rec) && Total(c, 0, [rec]) == value
            && At(c, 0, [rec], at).sum == if key == at then value else 0.0
  {
    hide ExampleRecord, KeyIn, StateAt, Total, Aggregate, RecordOk;
    var k := ExampleKernel(Percent, false, 10);
    var c := ExampleConfig([k]);
    ExampleMeaning([k], key, 10, value);
    OneOk(c, ExampleRecord(key, 10, value), Pair(10, value));
    ReadOne(k, ZERO, Pair(10, value));
    StateOne(c, 0, ExampleRecord(key, 10, value), at);
  }

  /** Values that cancel out leave no total, so nothing is reported. */
  lemma PercentExample()
    ensures var c := ExampleConfig([ExampleKernel(Percent, false, 10)]);
            var rs := [ExampleRecord(INNER, 10, 1.0)] + [ExampleRecord(OUTER, 10, -1.0)];
            && WfConfig(c) && RecordsOk(c, rs)
            && At(c, 0, rs, INNER).sum == 1.0 && At(c, 0, Flush(c, Plain(), rs), INNER).sum == 0.0
  {
    hide ExampleRecord, At, Flush, Total, RecordOk, WfConfig;
    var k := ExampleKernel(Percent, false, 10);
    var c := ExampleConfig([k]);
    var r1, r2 := ExampleRecord(INNER, 10, 1.0), ExampleRecord(OUTER, 10, -1.0);
    ExampleWf(k, ExampleKernel(Min, true, 20));
    PercentOne(INNER, 1.0, INNER);
    PercentOne(OUTER, -1.0, INNER);
    TotalJoin(c, 0, [r1], [r2]);
    AtJoin(c, 0, [r1], [r2], INNER);
    PercentFlushed(c, Plain(), [r1] + [r2], INNER, 0);
  }

  /** Beside an inclusive kernel, an entry with no record of its own comes back with a count of one. */
  lemma CountExample()
    ensures var c := ExampleConfig([ExampleKernel(Count, false, 10), ExampleKernel(Min, true, 20)]);
            var rs := [ExampleRecord(INNER, 20, 1.0)];
            && WfConfig(c) && RecordsOk(c, rs)
            && At(c, 0, rs, OUTER).n == 0 && At(c, 0, Flush(c, Plain(), rs), OUTER).n == 1
  {
    hide ExampleRecord, KeyIn, StateAt, Flush, Aggregate, RecordOk, WfConfig, KeyList;
    var k, l := ExampleKernel(Count, false, 10), ExampleKernel(Min, true, 20);
    var c := ExampleConfig([k, l]);
    var rec := ExampleRecord(INNER, 20, 1.0);
    ExampleWf(k, l);
    ExampleMeaning([k, l], INNER, 20, 1.0);
    OneOk(c, rec, Pair(20, 1.0));
    StateOne(c, 0, rec, OUTER);
    assert Above(OUTER, INNER);
    assert AnyInclusive(c) by { assert c.kernels[1].inclusive; }
    KeysListed(c, [rec], 0);
    TableClosed(c, [rec], OUTER, INNER);
    CountPreservedIff(c, Plain(), [rec], OUTER, 0);
  }
}
