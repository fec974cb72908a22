/** The reduction operators: how a record changes the state of one kernel, what the kernel reports,
    and that reading a report back adds the reported state. Arithmetic is exact. */
module AggregationKernels {

  import opened Common
  import opened AggregationKeys

  datatype Kind = Count | Sum | Scale(factor: real) | Min | Max | Avg | Variance | Percent

  // The target attribute and the attributes the kernel reports under. accum is the reported sum,
  // minimum or maximum.
  datatype Kernel = Kernel(kind: Kind, inclusive: bool, target: Attr, accum: Attr, count: Attr, sqsum: Attr, result: Attr)

  // Each kernel uses some of these members.
  datatype Acc = Acc(count: nat, sum: real, isum: real, sqsum: real, extreme: Option<real>)

  const ZERO: Acc := Acc(0, 0.0, 0.0, 0.0, None)

  function Reads(k: Kernel): set<Attr> {
    match k.kind
    case Count => {k.count}
    case Avg => {k.target, k.accum, k.count}
    case Variance => {k.target, k.accum, k.sqsum, k.count}
    case _ => {k.target, k.accum}
  }

  function Reports(k: Kernel): set<Attr> {
    match k.kind
    case Count => {k.count}
    case Sum => {k.accum}
    case Min => {k.accum}
    case Max => {k.accum}
    case Scale(_) => {k.accum, k.result}
    case Percent => {k.accum, k.result}
    case Avg => {k.result, k.accum, k.count}
    case Variance => {k.result, k.accum, k.sqsum, k.count}
  }

  predicate WfKernel(k: Kernel) {
    && k.target !in {k.accum, k.count, k.sqsum, k.result}
    && k.accum !in {k.count, k.sqsum, k.result}
    && k.count !in {k.sqsum, k.result}
    && k.sqsum != k.result
    && (k.kind.Count? || k.kind.Avg? || k.kind.Variance? ==> !k.inclusive)
  }

  function ToUint(v: real): nat {
    if v < 0.0 then 0 else v.Floor
  }

  function MinOf(a: real, b: real): real { if b < a then b else a }

  function MaxOf(a: real, b: real): real { if a < b then b else a }

  function Lower(a: Option<real>, b: Option<real>): Option<real> {
    if a.None? then b else if b.None? then a else Some(MinOf(a.value, b.value))
  }

  function Upper(a: Option<real>, b: Option<real>): Option<real> {
    if a.None? then b else if b.None? then a else Some(MaxOf(a.value, b.value))
  }

  /** What one entry whose attribute the kernel reads does to the state. */
  function Add(k: Kernel, s: Acc, x: Item): Acc {
    match k.kind
    case Count => s.(count := s.count + ToUint(x.value))
    case Sum => s.(sum := s.sum + x.value, count := s.count + 1)
    case Scale(_) => s.(sum := s.sum + x.value, count := s.count + 1)
    case Min => s.(extreme := Some(if s.extreme.None? then x.value else MinOf(s.extreme.value, x.value)))
    case Max => s.(extreme := Some(if s.extreme.None? then x.value else MaxOf(s.extreme.value, x.value)))
    case Avg =>
      if x.attr == k.target then s.(sum := s.sum + x.value, count := s.count + 1)
      else if x.attr == k.accum then s.(sum := s.sum + x.value)
      else s.(count := s.count + ToUint(x.value))
    case Variance =>
      if x.attr == k.target then
        s.(sum := s.sum + x.value, sqsum := s.sqsum + x.value * x.value, count := s.count + 1)
      else if x.attr == k.accum then s.(sum := s.sum + x.value)
      else if x.attr == k.sqsum then s.(sqsum := s.sqsum + x.value)
      else s.(count := s.count + ToUint(x.value))
    case Percent => s.(sum := s.sum + x.value, isum := s.isum + x.value)
  }

  /** The kernel at the record's own entry. Count and sum look at the first matching entry only, and
      a record without a count counts as one. */
  function Aggregate(k: Kernel, s: Acc, items: seq<Item>): Acc
    decreases |items|
  {
    if |items| == 0 then
      if k.kind.Count? then s.(count := s.count + 1) else s
    else if items[0].attr !in Reads(k) then Aggregate(k, s, items[1..])
    else if k.kind.Count? || k.kind.Sum? then Add(k, s, items[0])
    else Aggregate(k, Add(k, s, items[0]), items[1..])
  }

  /** An inclusive kernel at the entries above. */
  function ParentAggregate(k: Kernel, s: Acc, items: seq<Item>): Acc {
    if k.kind.Percent? then s.(isum := s.isum + Aggregate(k, ZERO, items).sum)
    else Aggregate(k, s, items)
  }

  function Scaled(factor: real, sum: real): real { factor * sum }

  function VarianceOf(count: nat, sum: real, sqsum: real): real
    requires count > 0
  {
    var avg := sum / count as real;
    sqsum / count as real - avg * avg
  }

  /** What a kernel appends to a flushed record; the total is shared by all entries. */
  function Report(k: Kernel, s: Acc, total: real): seq<Item> {
    match k.kind
    case Count => if s.count > 0 then [Pair(k.count, s.count as real)] else []
    case Sum => if s.count > 0 then [Pair(k.accum, s.sum)] else []
    case Scale(f) => if s.count > 0 then [Pair(k.accum, s.sum), Pair(k.result, Scaled(f, s.sum))] else []
    case Min => if s.extreme.Some? then [Pair(k.accum, s.extreme.value)] else []
    case Max => if s.extreme.Some? then [Pair(k.accum, s.extreme.value)] else []
    case Avg =>
      if s.count > 0 then
        [Pair(k.result, s.sum / s.count as real), Pair(k.accum, s.sum), Pair(k.count, s.count as real)]
      else []
    case Variance =>
      if s.count > 0 then
        [Pair(k.result, VarianceOf(s.count, s.sum, s.sqsum)), Pair(k.accum, s.sum), Pair(k.sqsum, s.sqsum),
         Pair(k.count, s.count as real)]
      else []
    case Percent =>
      if total > 0.0 then [Pair(k.accum, s.sum), Pair(k.result, 100.0 * s.isum / total)] else []
  }

  // ----- The loops over a record -----

  lemma ItemsDrop(rec: Record, i: nat)
    requires i < |rec|
    ensures Items(rec[i..]) == (if rec[i].Imm? then [rec[i].item] else []) + Items(rec[i + 1..])
  {
    assert rec[i..][1..] == rec[i + 1..];
  }

  lemma AggregateHead(k: Kernel, s: Acc, x: Item, rest: seq<Item>)
    ensures Aggregate(k, s, [x] + rest)
         == if x.attr !in Reads(k) then Aggregate(k, s, rest)
            else if k.kind.Count? || k.kind.Sum? then Add(k, s, x)
            else Aggregate(k, Add(k, s, x), rest)
  {
    assert ([x] + rest)[1..] == rest;
  }

  /** A kernel whose target attribute is not known to the database ignores every record, except that
      counting and scaling do not ask. */
  predicate Active(k: Kernel, known: bool) {
    known || k.kind.Count? || k.kind.Scale?
  }

  lemma {:induction false} PercentAdds(k: Kernel, s: Acc, items: seq<Item>)
    requires k.kind.Percent?
    ensures var v := Aggregate(k, ZERO, items);
            v.sum == v.isum && Aggregate(k, s, items) == s.(sum := s.sum + v.sum, isum := s.isum + v.sum)
    decreases |items|
  {
    if |items| > 0 {
      PercentAdds(k, s, items[1..]);
      PercentAdds(k, Add(k, s, items[0]), items[1..]);
      PercentAdds(k, Add(k, ZERO, items[0]), items[1..]);
    }
  }

  /** Also returns what is added to the total of a percentage. */
  method AggregateRecord(k: Kernel, known: bool, s: Acc, rec: Record) returns (r: Acc, added: real)
    ensures r == if Active(k, known) then Aggregate(k, s, Items(rec)) else s
    ensures k.kind.Percent? && known ==> added == Aggregate(k, ZERO, Items(rec)).sum
    ensures !(k.kind.Percent? && known) ==> added == 0.0
  {
    r, added := s, 0.0;
    if !Active(k, known) { return; }
    var i: nat := 0;
    assert rec[0..] == rec;
    while i < |rec|
      invariant i <= |rec| && Aggregate(k, s, Items(rec)) == Aggregate(k, r, Items(rec[i..]))
      invariant added == if k.kind.Percent? then r.sum - s.sum else 0.0
    {
      ItemsDrop(rec, i);
      if rec[i].Imm? {
        AggregateHead(k, r, rec[i].item, Items(rec[i + 1..]));
        if rec[i].item.attr in Reads(k) {
          r := Add(k, r, rec[i].item);
          if k.kind.Percent? { added := added + rec[i].item.value; }
          if k.kind.Count? || k.kind.Sum? { return; }
        }
      } else {
        assert Items(rec[i..]) == Items(rec[i + 1..]);
      }
      i := i + 1;
    }
    if k.kind.Count? { r := r.(count := r.count + 1); }
    if k.kind.Percent? { PercentAdds(k, s, Items(rec)); }
  }

  method ParentAggregateRecord(k: Kernel, known: bool, s: Acc, rec: Record) returns (r: Acc)
    ensures r == if Active(k, known) then ParentAggregate(k, s, Items(rec)) else s
  {
    if !k.kind.Percent? {
      var added: real;
      r, added := AggregateRecord(k, known, s, rec);
      return;
    }
    r := s;
    if !known { return; }
    var i: nat := 0;
    ghost var seen := ZERO;
    assert rec[0..] == rec;
    while i < |rec|
      invariant i <= |rec| && Aggregate(k, ZERO, Items(rec)) == Aggregate(k, seen, Items(rec[i..]))
      invariant r == s.(isum := s.isum + seen.sum)
    {
      ItemsDrop(rec, i);
      if rec[i].Imm? {
        AggregateHead(k, seen, rec[i].item, Items(rec[i + 1..]));
        if rec[i].item.attr == k.target || rec[i].item.attr == k.accum {
          r := r.(isum := r.isum + rec[i].item.value);
          seen := Add(k, seen, rec[i].item);
        }
      } else {
        assert Items(rec[i..]) == Items(rec[i + 1..]);
      }
      i := i + 1;
    }
  }

  // ----- What can be seen of a state -----

  // The sum kernels only ask whether they saw anything.
  datatype Summary = Summary(n: nat, any: bool, sum: real, isum: real, sq: real, lo: Option<real>, hi: Option<real>)

  const NOTHING: Summary := Summary(0, false, 0.0, 0.0, 0.0, None, None)

  function Plus(a: Summary, b: Summary): Summary {
    Summary(a.n + b.n, a.any || b.any, a.sum + b.sum, a.isum + b.isum, a.sq + b.sq, Lower(a.lo, b.lo), Upper(a.hi, b.hi))
  }

  function Observe(k: Kernel, s: Acc): Summary {
    match k.kind
    case Count => NOTHING.(n := s.count)
    case Sum => NOTHING.(any := s.count > 0, sum := s.sum)
    case Scale(_) => NOTHING.(any := s.count > 0, sum := s.sum)
    case Min => NOTHING.(lo := s.extreme)
    case Max => NOTHING.(hi := s.extreme)
    case Avg => NOTHING.(n := s.count, sum := s.sum)
    case Variance => NOTHING.(n := s.count, sum := s.sum, sq := s.sqsum)
    case Percent => NOTHING.(sum := s.sum, isum := s.isum)
  }

  lemma PlusLaws(a: Summary, b: Summary, c: Summary)
    ensures Plus(Plus(a, b), c) == Plus(a, Plus(b, c)) && Plus(a, b) == Plus(b, a) && Plus(a, NOTHING) == a
  {
  }

  /** The report depends on what can be seen only. */
  lemma ReportFromObservation(k: Kernel, s: Acc, t: Acc, total: real)
    requires Observe(k, s) == Observe(k, t)
    ensures Report(k, s, total) == Report(k, t, total)
  {
    match k.kind
    case Count => assert Observe(k, s).n == Observe(k, t).n;
    case Sum => assert Observe(k, s).any == Observe(k, t).any && Observe(k, s).sum == Observe(k, t).sum;
    case Scale(_) => assert Observe(k, s).any == Observe(k, t).any && Observe(k, s).sum == Observe(k, t).sum;
    case Min => assert Observe(k, s).lo == Observe(k, t).lo;
    case Max => assert Observe(k, s).hi == Observe(k, t).hi;
    case Avg => assert Observe(k, s).n == Observe(k, t).n;
    case Variance =>
      assert Observe(k, s).n == s.count && Observe(k, s).sum == s.sum && Observe(k, s).sq == s.sqsum;
      assert Observe(k, t).n == t.count && Observe(k, t).sum == t.sum && Observe(k, t).sq == t.sqsum;
    case Percent => assert Observe(k, s).isum == Observe(k, t).isum;
  }

  lemma AddAdds(k: Kernel, s: Acc, x: Item)
    ensures Observe(k, Add(k, s, x)) == Plus(Observe(k, s), Observe(k, Add(k, ZERO, x)))
  {
  }

  /** A record adds the same amount to every state. */
  lemma {:induction false} AggregateAdds(k: Kernel, s: Acc, items: seq<Item>)
    ensures Observe(k, Aggregate(k, s, items)) == Plus(Observe(k, s), Observe(k, Aggregate(k, ZERO, items)))
    decreases |items|
  {
    if |items| > 0 {
      if items[0].attr !in Reads(k) {
        AggregateAdds(k, s, items[1..]);
      } else {
        AddAdds(k, s, items[0]);
        if !k.kind.Count? && !k.kind.Sum? {
          var one := Add(k, ZERO, items[0]);
          AggregateAdds(k, Add(k, s, items[0]), items[1..]);
          AggregateAdds(k, one, items[1..]);
          PlusLaws(Observe(k, s), Observe(k, one), Observe(k, Aggregate(k, ZERO, items[1..])));
        }
      }
    }
  }

  lemma ParentAggregateAdds(k: Kernel, s: Acc, items: seq<Item>)
    ensures Observe(k, ParentAggregate(k, s, items)) == Plus(Observe(k, s), Observe(k, ParentAggregate(k, ZERO, items)))
  {
    AggregateAdds(k, s, items);
  }

  // ----- Reading a report back -----

  ghost predicate Unread(k: Kernel, l: seq<Item>) {
    forall i: nat | i < |l| :: l[i].attr !in Reads(k)
  }

  lemma {:induction false} UnreadAfter(k: Kernel, s: Acc, l: seq<Item>)
    requires Unread(k, l)
    ensures Aggregate(k, s, l) == Aggregate(k, s, [])
  {
    if |l| > 0 { UnreadAfter(k, s, l[1..]); }
  }

  /** Entries the kernel does not read make no difference, before or behind those it reads. */
  lemma {:induction false} UnreadAround(k: Kernel, s: Acc, pre: seq<Item>, l: seq<Item>, post: seq<Item>)
    requires Unread(k, pre) && Unread(k, post)
    ensures Aggregate(k, s, pre + l + post) == Aggregate(k, s, l)
    decreases |pre| + |l|
  {
    if |pre| > 0 {
      UnreadAround(k, s, pre[1..], l, post);
      assert (pre + l + post)[1..] == pre[1..] + l + post;
    } else if |l| > 0 {
      assert pre + l + post == [l[0]] + (l[1..] + post) && l == [l[0]] + l[1..];
      assert [] + l[1..] + post == l[1..] + post;
      AggregateHead(k, s, l[0], l[1..] + post);
      AggregateHead(k, s, l[0], l[1..]);
      UnreadAround(k, s, [], l[1..], post);
      UnreadAround(k, Add(k, s, l[0]), [], l[1..], post);
    } else {
      assert pre + l + post == post;
      UnreadAfter(k, s, post);
    }
  }

  lemma ToUintExact(n: nat)
    ensures ToUint(n as real) == n
  {
  }

  /** What a kernel that counts nothing has seen holds no sums. */
  ghost predicate Settled(k: Kernel, o: Summary) {
    !k.kind.Percent? && !o.any && o.n == 0 ==> o.sum == 0.0 && o.sq == 0.0
  }

  /** What reading its own report does: it adds the reported state. A count of zero is read back as
      one, and percentages are read back as the exclusive sum, if any total was reported. */
  function Reread(k: Kernel, s: Acc, total: real): Summary {
    if k.kind.Count? && s.count == 0 then NOTHING.(n := 1)
    else if k.kind.Percent? then
      if total > 0.0 then NOTHING.(sum := s.sum, isum := s.sum) else NOTHING
    else Observe(k, s)
  }

  lemma Unroll(k: Kernel, s: Acc, l: seq<Item>)
    requires |l| > 0 && !k.kind.Count? && !k.kind.Sum?
    ensures Aggregate(k, s, l) == Aggregate(k, if l[0].attr in Reads(k) then Add(k, s, l[0]) else s, l[1..])
  {
  }

  lemma ReportRereads(k: Kernel, s: Acc, total: real)
    requires WfKernel(k) && Settled(k, Observe(k, s))
    ensures Observe(k, Aggregate(k, ZERO, Report(k, s, total))) == Reread(k, s, total)
  {
    var l := Report(k, s, total);
    ToUintExact(s.count);
    if |l| > 0 && !k.kind.Count? && !k.kind.Sum? {
      Unroll(k, ZERO, l);
      var a := if l[0].attr in Reads(k) then Add(k, ZERO, l[0]) else ZERO;
      if |l| > 1 {
        Unroll(k, a, l[1..]);
        var b := if l[1].attr in Reads(k) then Add(k, a, l[1]) else a;
        assert l[1..][1..] == l[2..];
        if |l| > 2 {
          Unroll(k, b, l[2..]);
          assert l[2..][1..] == l[3..];
          var c := if l[2].attr in Reads(k) then Add(k, b, l[2]) else b;
          if |l| > 3 {
            Unroll(k, c, l[3..]);
          }
        }
      }
    }
  }

  lemma ReportAttrs(k: Kernel, s: Acc, total: real)
    ensures forall i: nat | i < |Report(k, s, total)| :: Report(k, s, total)[i].attr in Reports(k)
  {
  }
}
