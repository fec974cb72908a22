/** What the kernels compute, said of the records alone: the state of an entry and the values in its
    flushed record in terms of the list of target values of the raw records at the entry's key, or at
    and below it. */
module KernelMeanings {

  import opened Common
  import opened AggregationKeys
  import opened AggregationKernels
  import opened Aggregations
  import opened Aggregators
  import Reaggregation

  // ----- The values of a stream -----

  /** The values of an attribute in a record, in order. */
  function ValuesOf(rec: Record, a: Attr): seq<real> {
    if |rec| == 0 then []
    else (if rec[0].Imm? && rec[0].item.attr == a then [rec[0].item.value] else []) + ValuesOf(rec[1..], a)
  }

  // A sum takes the first value of a record only.
  function TakenOf(k: Kernel, rec: Record): seq<real> {
    var all := ValuesOf(rec, k.target);
    if k.kind.Sum? && |all| > 1 then all[..1] else all
  }

  // The records at a key; those and, for an inclusive kernel, the ones below; or all.
  datatype Scope = Own | Reached | Everywhere

  predicate InScope(c: Config, i: nat, scope: Scope, key: Key, rec: Record)
    requires i < |c.kernels|
  {
    match scope
    case Own => KeyIn(c, rec) == key
    case Reached => KeyIn(c, rec) == key || (c.kernels[i].inclusive && Above(key, KeyIn(c, rec)))
    case Everywhere => true
  }

  function Values(c: Config, i: nat, scope: Scope, rs: seq<Record>, key: Key): seq<real>
    requires i < |c.kernels|
  {
    if |rs| == 0 then []
    else
      var last := rs[|rs| - 1];
      Values(c, i, scope, rs[..|rs| - 1], key) + if InScope(c, i, scope, key, last) then TakenOf(c.kernels[i], last) else []
  }

  function RecordsAt(c: Config, rs: seq<Record>, key: Key): nat {
    if |rs| == 0 then 0 else RecordsAt(c, rs[..|rs| - 1], key) + if KeyIn(c, rs[|rs| - 1]) == key then 1 else 0
  }

  function SumOf(vs: seq<real>): real {
    if vs == [] then 0.0 else SumOf(vs[..|vs| - 1]) + vs[|vs| - 1]
  }

  function SquaresOf(vs: seq<real>): real {
    if vs == [] then 0.0 else SquaresOf(vs[..|vs| - 1]) + vs[|vs| - 1] * vs[|vs| - 1]
  }

  function DeviationsOf(vs: seq<real>, mean: real): real {
    if vs == [] then 0.0
    else DeviationsOf(vs[..|vs| - 1], mean) + (vs[|vs| - 1] - mean) * (vs[|vs| - 1] - mean)
  }

  predicate Least(x: real, vs: seq<real>) {
    x in vs && forall v | v in vs :: x <= v
  }

  predicate Greatest(x: real, vs: seq<real>) {
    x in vs && forall v | v in vs :: v <= x
  }

  /** No entry has an attribute that the kernel reports under. */
  ghost predicate Raw(k: Kernel, rec: Record) {
    forall j: nat | j < |rec| && rec[j].Imm? :: rec[j].item.attr !in Reports(k)
  }

  ghost predicate AllRaw(k: Kernel, rs: seq<Record>) {
    forall j: nat | j < |rs| :: Raw(k, rs[j])
  }

  // ----- What a state says -----

  /** The state of a kernel that has seen these values, and those of its own records. */
  ghost predicate Describes(k: Kernel, s: Acc, own: seq<real>, vs: seq<real>) {
    match k.kind
    case Count => true
    case Sum => s.sum == SumOf(vs) && s.count == |vs|
    case Scale(_) => s.sum == SumOf(vs) && s.count == |vs|
    case Avg => s.sum == SumOf(vs) && s.count == |vs|
    case Variance => s.sum == SumOf(vs) && s.sqsum == SquaresOf(vs) && s.count == |vs|
    case Min => if vs == [] then s.extreme.None? else s.extreme.Some? && Least(s.extreme.value, vs)
    case Max => if vs == [] then s.extreme.None? else s.extreme.Some? && Greatest(s.extreme.value, vs)
    case Percent => s.sum == SumOf(own) && s.isum == SumOf(vs)
  }

  lemma OneMore(vs: seq<real>, v: real)
    ensures SumOf(vs + [v]) == SumOf(vs) + v && SquaresOf(vs + [v]) == SquaresOf(vs) + v * v
  {
    assert (vs + [v])[..|vs|] == vs;
  }

  lemma {:induction false} SumJoin(vs: seq<real>, ws: seq<real>)
    ensures SumOf(vs + ws) == SumOf(vs) + SumOf(ws)
  {
    if ws == [] {
      assert vs + ws == vs;
    } else {
      SumJoin(vs, ws[..|ws| - 1]);
      assert vs + ws == (vs + ws[..|ws| - 1]) + [ws[|ws| - 1]];
      OneMore(vs + ws[..|ws| - 1], ws[|ws| - 1]);
    }
  }

  lemma AddDescribes(k: Kernel, s: Acc, x: Item, own: seq<real>, vs: seq<real>)
    requires x.attr == k.target && WfKernel(k) && Describes(k, s, own, vs)
    ensures Describes(k, Add(k, s, x), own + [x.value], vs + [x.value])
  {
    hide SumOf, SquaresOf;
    OneMore(vs, x.value);
    OneMore(own, x.value);
  }

  function ItemValues(items: seq<Item>, a: Attr): seq<real> {
    if |items| == 0 then [] else (if items[0].attr == a then [items[0].value] else []) + ItemValues(items[1..], a)
  }

  lemma {:induction false} ValuesInItems(rec: Record, a: Attr)
    ensures ItemValues(Items(rec), a) == ValuesOf(rec, a)
  {
    if |rec| > 0 {
      ValuesInItems(rec[1..], a);
      assert rec[0].Imm? ==> Items(rec)[1..] == Items(rec[1..]);
      assert !rec[0].Imm? ==> Items(rec) == Items(rec[1..]);
    }
  }

  lemma {:induction false} RawItems(k: Kernel, rec: Record)
    requires Raw(k, rec)
    ensures forall j: nat | j < |Items(rec)| :: Items(rec)[j].attr !in Reports(k)
  {
    hide Reports;
    if |rec| > 0 {
      assert forall j: nat | j < |rec[1..]| :: rec[1..][j] == rec[j + 1];
      RawItems(k, rec[1..]);
    }
  }

  // Of raw entries a kernel reads those of its target only.
  lemma ReadsTarget(k: Kernel, x: Item)
    requires x.attr !in Reports(k)
    ensures x.attr in Reads(k) <==> !k.kind.Count? && x.attr == k.target
  {
  }

  function TakenItems(k: Kernel, items: seq<Item>): seq<real> {
    var all := ItemValues(items, k.target);
    if k.kind.Sum? && |all| > 1 then all[..1] else all
  }

  lemma {:induction false} AggregateDescribes(k: Kernel, s: Acc, items: seq<Item>, own: seq<real>, vs: seq<real>)
    requires WfKernel(k) && !k.kind.Count? && Describes(k, s, own, vs)
    requires forall j: nat | j < |items| :: items[j].attr !in Reports(k)
    ensures Describes(k, Aggregate(k, s, items), own + TakenItems(k, items), vs + TakenItems(k, items))
    decreases |items|
  {
    hide Describes, Add, Reads, Reports, WfKernel;
    if |items| == 0 {
      assert own + [] == own && vs + [] == vs;
    } else {
      var x, rest := items[0], items[1..];
      ReadsTarget(k, x);
      if x.attr in Reads(k) {
        AddDescribes(k, s, x, own, vs);
        if !k.kind.Sum? {
          AggregateDescribes(k, Add(k, s, x), rest, own + [x.value], vs + [x.value]);
          var t := TakenItems(k, rest);
          assert TakenItems(k, items) == [x.value] + t;
          assert own + ([x.value] + t) == (own + [x.value]) + t && vs + ([x.value] + t) == (vs + [x.value]) + t;
        } else {
          assert TakenItems(k, items) == [x.value];
        }
      } else {
        AggregateDescribes(k, s, rest, own, vs);
        assert ItemValues(items, k.target) == [] + ItemValues(rest, k.target) == ItemValues(rest, k.target);
      }
    }
  }

  lemma ParentDescribes(k: Kernel, s: Acc, items: seq<Item>, own: seq<real>, vs: seq<real>)
    requires WfKernel(k) && !k.kind.Count? && Describes(k, s, own, vs)
    requires forall j: nat | j < |items| :: items[j].attr !in Reports(k)
    ensures Describes(k, ParentAggregate(k, s, items), own, vs + TakenItems(k, items))
  {
    hide Aggregate, TakenItems, SumOf, SquaresOf, Reports, WfKernel;
    var t := TakenItems(k, items);
    if k.kind.Percent? {
      NothingSeen(k);
      AggregateDescribes(k, ZERO, items, [], []);
      assert [] + t == t;
      SumJoin(vs, t);
    } else {
      AggregateDescribes(k, s, items, own, vs);
    }
  }

  lemma NothingSeen(k: Kernel)
    ensures Describes(k, ZERO, [], [])
  {
  }

  // ----- The state of every key -----

  /** For every stream of raw records and every key, a kernel's state is given by the values of its
      target in the records at the key, and below it for inclusive kernels: their sum, the sum of their
      squares, their number, their minimum or maximum; and a count is the number of records. */
  lemma {:induction false} StateMeaning(c: Config, i: nat, rs: seq<Record>, key: Key)
    requires i < |c.kernels| && WfKernel(c.kernels[i]) && AllRaw(c.kernels[i], rs)
    ensures Describes(c.kernels[i], StateAt(c, i, rs, key), Values(c, i, Own, rs, key), Values(c, i, Reached, rs, key))
    ensures c.kernels[i].kind.Count? ==> StateAt(c, i, rs, key).count == RecordsAt(c, rs, key)
  {
    hide Describes, Raw, WfKernel, KeyIn, Aggregate, ParentAggregate, Above, TakenOf;
    var k := c.kernels[i];
    if |rs| == 0 {
      NothingSeen(k);
    } else {
      var front, last := rs[..|rs| - 1], rs[|rs| - 1];
      StateMeaning(c, i, front, key);
      assert Raw(k, last);
      EffectMeaning(c, i, StateAt(c, i, front, key), last, key, Values(c, i, Own, front, key), Values(c, i, Reached, front, key));
    }
  }

  lemma EffectMeaning(c: Config, i: nat, s: Acc, rec: Record, key: Key, own: seq<real>, vs: seq<real>)
    requires i < |c.kernels| && WfKernel(c.kernels[i]) && Raw(c.kernels[i], rec) && Describes(c.kernels[i], s, own, vs)
    ensures var k, t := c.kernels[i], TakenOf(c.kernels[i], rec);
            && Describes(k, Effect(c, i, s, rec, key), own + (if InScope(c, i, Own, key, rec) then t else []),
                         vs + if InScope(c, i, Reached, key, rec) then t else [])
            && (k.kind.Count? ==> Effect(c, i, s, rec, key).count == s.count + if KeyIn(c, rec) == key then 1 else 0)
  {
    hide Describes, Raw, KeyIn, Aggregate, ParentAggregate, Above, Items, ValuesOf, ItemValues, Reports;
    var k := c.kernels[i];
    RawItems(k, rec);
    ValuesInItems(rec, k.target);
    assert own + [] == own && vs + [] == vs;
    if k.kind.Count? {
      CountsOne(k, s, Items(rec));
      CountOnly(k, Effect(c, i, s, rec, key), own + (if InScope(c, i, Own, key, rec) then TakenOf(k, rec) else []),
                vs + if InScope(c, i, Reached, key, rec) then TakenOf(k, rec) else []);
    } else if KeyIn(c, rec) == key {
      AggregateDescribes(k, s, Items(rec), own, vs);
    } else if k.inclusive && Above(key, KeyIn(c, rec)) {
      ParentDescribes(k, s, Items(rec), own, vs);
    }
  }

  lemma CountOnly(k: Kernel, s: Acc, own: seq<real>, vs: seq<real>)
    requires k.kind.Count?
    ensures Describes(k, s, own, vs)
  {
  }

  lemma {:induction false} CountsOne(k: Kernel, s: Acc, items: seq<Item>)
    requires k.kind.Count? && forall j: nat | j < |items| :: items[j].attr !in Reports(k)
    ensures Aggregate(k, s, items).count == s.count + 1
  {
    if |items| > 0 { CountsOne(k, s, items[1..]); }
  }

  /** The total of a percentage is the sum of all values. */
  lemma {:induction false} TotalMeaning(c: Config, i: nat, rs: seq<Record>, key: Key)
    requires i < |c.kernels| && WfKernel(c.kernels[i]) && c.kernels[i].kind.Percent? && AllRaw(c.kernels[i], rs)
    ensures Total(c, i, rs) == SumOf(Values(c, i, Everywhere, rs, key))
  {
    hide Raw, WfKernel, Aggregate, Items, ValuesOf, ItemValues, Reports, SumOf;
    var k := c.kernels[i];
    NoSum();
    if |rs| > 0 {
      var front, last := rs[..|rs| - 1], rs[|rs| - 1];
      TotalMeaning(c, i, front, key);
      assert Raw(k, last);
      RawItems(k, last);
      ValuesInItems(last, k.target);
      NothingSeen(k);
      AggregateDescribes(k, ZERO, Items(last), [], []);
      assert [] + TakenItems(k, Items(last)) == TakenOf(k, last);
      SumJoin(Values(c, i, Everywhere, front, key), TakenOf(k, last));
    }
  }

  lemma NoSum()
    ensures SumOf([]) == 0.0
  {
  }

  // ----- What is reported -----

  // The attribute of the value that a kernel is for.
  function Shown(k: Kernel): Attr {
    match k.kind
    case Count => k.count
    case Sum => k.accum
    case Min => k.accum
    case Max => k.accum
    case _ => k.result
  }

  /** When there is something to report. */
  predicate Reported(k: Kernel, n: nat, vs: seq<real>, all: seq<real>) {
    match k.kind
    case Count => n > 0
    case Percent => SumOf(all) > 0.0
    case _ => vs != []
  }

  /** The right value for n records with these values, among all the values there are. */
  predicate Right(k: Kernel, x: real, n: nat, vs: seq<real>, all: seq<real>) {
    match k.kind
    case Count => x == n as real
    case Sum => x == SumOf(vs)
    case Scale(f) => x == f * SumOf(vs)
    case Min => Least(x, vs)
    case Max => Greatest(x, vs)
    case Avg => x * |vs| as real == SumOf(vs)
    case Variance => vs != [] && |vs| as real * x == DeviationsOf(vs, SumOf(vs) / |vs| as real)
    case Percent => x * SumOf(all) == 100.0 * SumOf(vs)
  }

  lemma {:induction false} DeviationsMeaning(vs: seq<real>, m: real)
    ensures DeviationsOf(vs, m) == SquaresOf(vs) - 2.0 * m * SumOf(vs) + |vs| as real * m * m
  {
    var n := |vs| - 1;
    if n >= 0 {
      DeviationsMeaning(vs[..n], m);
      OneDeviation(DeviationsOf(vs[..n], m), SquaresOf(vs[..n]), SumOf(vs[..n]), n as real, vs[n], m);
      assert |vs| as real == n as real + 1.0;
    }
  }

  lemma OneDeviation(d: real, sq: real, s: real, n: real, v: real, m: real)
    requires d == sq - 2.0 * m * s + n * m * m
    ensures d + (v - m) * (v - m) == (sq + v * v) - 2.0 * m * (s + v) + (n + 1.0) * m * m
  {
    Square(v, m);
    Distribute(m, s, v, n);
  }

  lemma Square(v: real, m: real)
    ensures (v - m) * (v - m) == v * v - 2.0 * m * v + m * m
  {
  }

  lemma Distribute(m: real, s: real, v: real, n: real)
    ensures 2.0 * m * (s + v) == 2.0 * m * s + 2.0 * m * v && (n + 1.0) * m * m == n * m * m + m * m
  {
  }

  /** The variance reported is the mean square deviation. */
  lemma VarianceMeaning(vs: seq<real>)
    requires vs != []
    ensures var n := |vs| as real; n * VarianceOf(|vs|, SumOf(vs), SquaresOf(vs)) == DeviationsOf(vs, SumOf(vs) / n)
  {
    hide SumOf, SquaresOf, DeviationsOf;
    var n, sum, sq := |vs| as real, SumOf(vs), SquaresOf(vs);
    DeviationsMeaning(vs, sum / n);
    Moments(n, sum, sq, sum / n, sq / n);
  }

  lemma Moments(n: real, sum: real, sq: real, m: real, q: real)
    requires n > 0.0 && m == sum / n && q == sq / n
    ensures n * (q - m * m) == sq - 2.0 * m * sum + n * m * m
  {
    assert n * m == sum && n * q == sq;
    assert n * (q - m * m) == n * q - (n * m) * m;
    assert n * m * m == sum * m && 2.0 * m * sum == 2.0 * (sum * m);
  }

  lemma ReportRight(k: Kernel, s: Acc, n: nat, own: seq<real>, vs: seq<real>, all: seq<real>, total: real)
    requires WfKernel(k) && Describes(k, s, own, vs) && (k.kind.Count? ==> s.count == n)
    requires k.kind.Percent? ==> total == SumOf(all)
    ensures Reported(k, n, vs, all) <==> exists j: nat :: j < |Report(k, s, total)| && Report(k, s, total)[j].attr == Shown(k)
    ensures forall j: nat | j < |Report(k, s, total)| && Report(k, s, total)[j].attr == Shown(k) ::
              Right(k, Report(k, s, total)[j].value, n, vs, all)
  {
    hide Report, Describes, Reported, Right, WfKernel, ShownValue;
    OneShown(k, s, total);
    if Report(k, s, total) == [] { NothingToShow(k, s, n, own, vs, all, total); } else { RightShown(k, s, n, own, vs, all, total); }
  }

  function ShownValue(k: Kernel, s: Acc, total: real): real {
    match k.kind
    case Count => s.count as real
    case Sum => s.sum
    case Scale(f) => Scaled(f, s.sum)
    case Min => if s.extreme.Some? then s.extreme.value else 0.0
    case Max => if s.extreme.Some? then s.extreme.value else 0.0
    case Avg => if s.count > 0 then s.sum / s.count as real else 0.0
    case Variance => if s.count > 0 then VarianceOf(s.count, s.sum, s.sqsum) else 0.0
    case Percent => if total > 0.0 then 100.0 * s.isum / total else 0.0
  }

  // A report has exactly one value under the kernel's attribute.
  lemma OneShown(k: Kernel, s: Acc, total: real)
    requires WfKernel(k)
    ensures Report(k, s, total) != [] ==> exists j: nat :: j < |Report(k, s, total)| && Report(k, s, total)[j].attr == Shown(k)
    ensures forall j: nat | j < |Report(k, s, total)| && Report(k, s, total)[j].attr == Shown(k) ::
              Report(k, s, total)[j].value == ShownValue(k, s, total)
  {
    hide VarianceOf, Scaled;
    var l := Report(k, s, total);
    if |l| > 0 {
      assert l[if k.kind.Scale? || k.kind.Percent? then 1 else 0].attr == Shown(k);
    }
  }

  lemma NothingToShow(k: Kernel, s: Acc, n: nat, own: seq<real>, vs: seq<real>, all: seq<real>, total: real)
    requires Describes(k, s, own, vs) && (k.kind.Count? ==> s.count == n) && (k.kind.Percent? ==> total == SumOf(all))
    requires Report(k, s, total) == []
    ensures !Reported(k, n, vs, all)
  {
    hide SumOf, SquaresOf, Least, Greatest, VarianceOf;
  }

  lemma RightShown(k: Kernel, s: Acc, n: nat, own: seq<real>, vs: seq<real>, all: seq<real>, total: real)
    requires Describes(k, s, own, vs) && (k.kind.Count? ==> s.count == n) && (k.kind.Percent? ==> total == SumOf(all))
    requires Report(k, s, total) != []
    ensures Reported(k, n, vs, all) && Right(k, ShownValue(k, s, total), n, vs, all)
  {
    hide Report, Describes, Reported, Right, ShownValue;
    match k.kind
    case Variance => RightVariance(k, s, n, own, vs, all, total);
    case Percent => RightPercent(k, s, n, own, vs, all, total);
    case Avg => RightAverage(k, s, n, own, vs, all, total);
    case _ => RightAsIs(k, s, n, own, vs, all, total);
  }

  lemma RightVariance(k: Kernel, s: Acc, n: nat, own: seq<real>, vs: seq<real>, all: seq<real>, total: real)
    requires k.kind.Variance? && Describes(k, s, own, vs) && Report(k, s, total) != []
    ensures Reported(k, n, vs, all) && Right(k, ShownValue(k, s, total), n, vs, all)
  {
    hide SumOf, SquaresOf, DeviationsOf, VarianceOf;
    VarianceMeaning(vs);
  }

  lemma RightPercent(k: Kernel, s: Acc, n: nat, own: seq<real>, vs: seq<real>, all: seq<real>, total: real)
    requires k.kind.Percent? && Describes(k, s, own, vs) && Report(k, s, total) != [] && total == SumOf(all)
    ensures Reported(k, n, vs, all) && Right(k, ShownValue(k, s, total), n, vs, all)
  {
    hide SumOf;
    ShareTimesTotal(s.isum, total);
  }

  lemma RightAverage(k: Kernel, s: Acc, n: nat, own: seq<real>, vs: seq<real>, all: seq<real>, total: real)
    requires k.kind.Avg? && Describes(k, s, own, vs) && Report(k, s, total) != []
    ensures Reported(k, n, vs, all) && Right(k, ShownValue(k, s, total), n, vs, all)
  {
    hide SumOf;
    MeanTimesNumber(s.sum, |vs| as real);
  }

  lemma RightAsIs(k: Kernel, s: Acc, n: nat, own: seq<real>, vs: seq<real>, all: seq<real>, total: real)
    requires !k.kind.Variance? && !k.kind.Percent? && !k.kind.Avg? && Describes(k, s, own, vs) && Report(k, s, total) != []
    requires k.kind.Count? ==> s.count == n
    ensures Reported(k, n, vs, all) && Right(k, ShownValue(k, s, total), n, vs, all)
  {
    hide SumOf, Least, Greatest;
  }

  lemma ShareTimesTotal(sum: real, total: real)
    requires total > 0.0
    ensures (100.0 * sum / total) * total == 100.0 * sum
  {
  }

  lemma MeanTimesNumber(sum: real, n: real)
    requires n > 0.0
    ensures (sum / n) * n == sum
  {
  }

  // ----- Flushed records -----

  // No other kernel reports under this attribute.
  ghost predicate OwnAttribute(c: Config, i: nat)
    requires i < |c.kernels|
  {
    forall j: nat | j < |c.kernels| && j != i :: Shown(c.kernels[i]) !in Reports(c.kernels[j])
  }

  /** The flushed record of an entry shows the right value of a kernel for the records of a stream, if there
      is one to show; and no other value, unless another kernel reports under the same attribute. */
  ghost predicate Answers(c: Config, i: nat, rs: seq<Record>, key: Key, rec: Record)
    requires i < |c.kernels|
  {
    var k, n := c.kernels[i], RecordsAt(c, rs, key);
    var vs, all := Values(c, i, Reached, rs, key), Values(c, i, Everywhere, rs, key);
    && (Reported(k, n, vs, all) ==>
          exists j: nat :: j < |rec| && rec[j].Imm? && rec[j].item.attr == Shown(k) && Right(k, rec[j].item.value, n, vs, all))
    && (OwnAttribute(c, i) ==>
          forall j: nat | j < |rec| && rec[j].Imm? && rec[j].item.attr == Shown(k) ::
            Reported(k, n, vs, all) && Right(k, rec[j].item.value, n, vs, all))
  }

  lemma {:induction false} InResults(c: Config, rs: seq<Record>, key: Key, n: nat, x: Item)
    requires n <= |c.kernels|
    ensures x in Results(c, rs, key, n) <==>
              exists i: nat :: i < n && x in Report(c.kernels[i], StateAt(c, i, rs, key), Total(c, i, rs))
  {
    hide Report, StateAt, Total;
    if n > 0 { InResults(c, rs, key, n - 1, x); }
  }

  /** What a flushed record has under the attribute of a kernel is in that kernel's report. */
  lemma ShownOnlyThere(c: Config, ord: Order, rs: seq<Record>, key: Key, i: nat, x: Item)
    requires WfKeys(c) && Canonical(c, key) && i < |c.kernels| && x.attr == Shown(c.kernels[i])
    ensures var mine := Report(c.kernels[i], StateAt(c, i, rs, key), Total(c, i, rs));
            && (x in mine ==> x in Items(FlushRecord(c, ord, rs, key)))
            && (OwnAttribute(c, i) && x in Items(FlushRecord(c, ord, rs, key)) ==> x in mine)
  {
    hide Canonical, Results, Report, StateAt, Total, Rekey, KeyEntries, Immediates, WfKeys, OwnAttribute, Shown;
    RekeyBack(c, ord, key);
    ItemsKey(Rekey(ord, key), Results(c, rs, key, |c.kernels|));
    InResults(c, rs, key, |c.kernels|, x);
    ShownIsNoKey(c, i);
    if OwnAttribute(c, i) && x in Items(FlushRecord(c, ord, rs, key)) {
      assert x !in Rekey(ord, key).imms by {
        assert forall j: nat | j < |Rekey(ord, key).imms| :: KeyAttr(c.g)(Rekey(ord, key).imms[j].attr);
      }
      var j: nat :| j < |c.kernels| && x in Report(c.kernels[j], StateAt(c, j, rs, key), Total(c, j, rs));
      ReportAttrs(c.kernels[j], StateAt(c, j, rs, key), Total(c, j, rs));
      OnlyMine(c, i, j);
    }
  }

  lemma ShownIsNoKey(c: Config, i: nat)
    requires WfKeys(c) && i < |c.kernels|
    ensures !KeyAttr(c.g)(Shown(c.kernels[i]))
  {
    hide IsKey;
    assert Shown(c.kernels[i]) in Reports(c.kernels[i]);
    assert Shown(c.kernels[i]) in Reads(c.kernels[i]) + Reports(c.kernels[i]);
  }

  lemma OnlyMine(c: Config, i: nat, j: nat)
    requires i < |c.kernels| && j < |c.kernels| && OwnAttribute(c, i) && Shown(c.kernels[i]) in Reports(c.kernels[j])
    ensures i == j
  {
  }

  /** Flushing one stream answers for another if the kernel would report the same for both. */
  lemma AnswersFor(c: Config, ord: Order, rs: seq<Record>, ss: seq<Record>, key: Key, i: nat)
    requires WfKeys(c) && Canonical(c, key) && i < |c.kernels| && AllRaw(c.kernels[i], ss)
    requires Report(c.kernels[i], StateAt(c, i, rs, key), Total(c, i, rs)) == Report(c.kernels[i], StateAt(c, i, ss, key), Total(c, i, ss))
    ensures Answers(c, i, ss, key, FlushRecord(c, ord, rs, key))
  {
    hide Canonical, Report, StateAt, Total, WfKeys, OwnAttribute, FlushRecord, Items, Values, RecordsAt, Reported, Right, Shown,
      WfKernel, Describes, AllRaw;
    var k, rec := c.kernels[i], FlushRecord(c, ord, rs, key);
    var mine := Report(k, StateAt(c, i, rs, key), Total(c, i, rs));
    var n, vs, all := RecordsAt(c, ss, key), Values(c, i, Reached, ss, key), Values(c, i, Everywhere, ss, key);
    KernelOk(c, i);
    StateMeaning(c, i, ss, key);
    if k.kind.Percent? { TotalMeaning(c, i, ss, key); }
    ReportRight(k, StateAt(c, i, ss, key), n, Values(c, i, Own, ss, key), vs, all, Total(c, i, ss));
    if Reported(k, n, vs, all) {
      var j: nat :| j < |mine| && mine[j].attr == Shown(k);
      ShownOnlyThere(c, ord, rs, key, i, mine[j]);
      InItems(rec, mine[j]);
      var l: nat :| l < |rec| && rec[l] == Imm(mine[j]);
      assert rec[l].Imm? && rec[l].item.attr == Shown(k) && Right(k, rec[l].item.value, n, vs, all);
    }
    forall j: nat | OwnAttribute(c, i) && j < |rec| && rec[j].Imm? && rec[j].item.attr == Shown(k)
      ensures Reported(k, n, vs, all) && Right(k, rec[j].item.value, n, vs, all)
    {
      InItems(rec, rec[j].item);
      ShownOnlyThere(c, ord, rs, key, i, rec[j].item);
      var l: nat :| l < |mine| && mine[l] == rec[j].item;
    }
  }

  lemma KernelOk(c: Config, i: nat)
    requires WfKeys(c) && i < |c.kernels|
    ensures WfKernel(c.kernels[i])
  {
  }

  /** In the flushed records of any stream of raw records: the average times the number of values is their
      sum, the number of values times the variance is the sum of the square deviations from the mean, a
      scaled sum is the factor times the sum, a percentage times the total is a hundred times the sum over
      the records at and below the key, a minimum is a value and no greater than any, a maximum no less than
      any, and a count is the number of records. */
  lemma FlushAnswers(c: Config, ord: Order, rs: seq<Record>, key: Key, i: nat)
    requires WfKeys(c) && key in KeyList(c, rs) && i < |c.kernels| && AllRaw(c.kernels[i], rs)
    ensures Answers(c, i, rs, key, FlushRecord(c, ord, rs, key))
  {
    hide Canonical, WfKeys, KeyList, AllRaw, Answers, FlushRecord;
    KeyListCanonical(c, rs, key);
    AnswersFor(c, ord, rs, rs, key, i);
  }

  // ----- The aggregator -----

  /** An aggregator fed raw records flushes one record for every key they touch, with the right answers of
      all its kernels. */
  method Answer(c: Config, ord: Order, ids: NodeIds, known: seq<bool>, rs: seq<Record>) returns (recs: seq<Record>)
    requires WfKeys(c) && Injective(ord) && |known| == |c.kernels|
    requires forall i: nat | i < |c.kernels| :: Active(c.kernels[i], known[i]) && AllRaw(c.kernels[i], rs)
    ensures |recs| == |KeyList(c, rs)| && Distinct(KeyList(c, rs)) && forall key: Key :: key in KeyList(c, rs) <==> Touches(c, rs, key)
    ensures forall j: nat, i: nat | j < |recs| && i < |c.kernels| :: Answers(c, i, rs, KeyList(c, rs)[j], recs[j])
  {
    hide WfKeys, Injective, Active, AllRaw, Answers, Touches, Aggregator.Valid, KeyList, FlushKeys, FlushRecord;
    var a := new Aggregator(c, ord, ids, known);
    for j := 0 to |rs|
      invariant fresh(a) && a.Valid() && a.stream == rs[..j]
    {
      a.Process(rs[j]);
      assert rs[..j + 1] == rs[..j] + [rs[j]];
    }
    assert rs[..|rs|] == rs;
    recs := a.Flush();
    ghost var ks := KeyList(c, rs);
    KeyListMeaning(c, rs);
    Reaggregation.FlushLength(c, ord, rs, ks);
    forall j: nat, i: nat | j < |recs| && i < |c.kernels| ensures Answers(c, i, rs, ks[j], recs[j]) {
      FlushAnswers(c, ord, rs, ks[j], i);
    }
  }
}
