/** Aggregating over processes: every rank aggregates its own records, flushed results are packed and
    sent up the reduction tree, and rank 0 ends with what one aggregator fed all records would have, as
    long as every flushed record fits its message. */
module CrossProcess {

  import opened Common
  import opened AggregationKeys
  import opened AggregationKernels
  import opened Aggregations
  import opened Reaggregation
  import opened Aggregators
  import K = KernelMeanings
  import M = MetadataMerge
  import R = Reduction
  import V = Vlenc
  import W = SnapshotRecords
  import H = WireHops

  // ----- Records on the wire -----

  /** A list of node ids and immediates that means the record in the database. */
  ghost predicate Written(read: H.Reading, nodes: M.Nodes, list: seq<W.WireEntry>, rec: Record) {
    M.WellFormed(nodes) && H.ListIn(nodes, list) && H.RecordOf(read, nodes, W.WholeRecord(list)) == rec
  }

  lemma WrittenLengths(read: H.Reading, nodes: M.Nodes, list: seq<W.WireEntry>, rec: Record)
    requires Written(read, nodes, list, rec)
    ensures |W.Values(list)| == |Items(rec)| && |W.Refs(list)| + |Items(rec)| == |rec|
  {
    hide M.WellFormed, H.RecordOf, Items, W.Refs, W.Values;
    H.ItemsOf(read, nodes, W.WholeRecord(list));
  }

  /** What the receiver reads of a record is that record if and only if it fits. */
  lemma ArrivesIntactIff(read: H.Reading, from: M.Nodes, list: seq<W.WireEntry>, rec: Record, to: M.Nodes, t: W.Rec)
    requires Written(read, from, list, rec) && M.WellFormed(to) && H.SameMeaning(read, from, W.Arriving(list), to, t)
    ensures H.RecordOf(read, to, t) == rec <==> W.FitsWire(list)
  {
    hide M.WellFormed, H.RecordOf, W.FitsWire, W.Arriving, W.Refs, W.Values;
    W.ArrivesWholeIff(list);
    W.ArrivesShorter(list);
  }

  // ----- Ranks -----

  // A rank's attribute numbering and database, everything its aggregator has processed, and whether every
  // record that went into that has fitted its message.
  datatype Rank = Rank(ord: Order, nodes: M.Nodes, stream: seq<Record>, fit: bool)

  // What a rank sends: the database as it is after the flush and the records in its ids, and the
  // receiver's id map.
  datatype Message = Message(from: M.Nodes, lists: seq<seq<W.WireEntry>>, idmap: M.IdMap)

  /** The message has all flushed records of the rank. */
  ghost predicate Sent(c: Config, read: H.Reading, b: Rank, m: Message) {
    var recs := Flush(c, b.ord, b.stream);
    && M.WellFormed(m.from) && b.nodes <= m.from && |m.lists| == |recs|
    && forall j: nat | j < |recs| :: Written(read, m.from, m.lists[j], recs[j])
  }

  ghost predicate ReceivedAs(read: H.Reading, m: Message, list: seq<W.WireEntry>, nodes: M.Nodes, rec: Record)
    requires M.WellFormed(m.from) && M.WellFormed(nodes)
  {
    var t := H.Translate(W.Arriving(list), m.idmap);
    H.SameMeaning(read, m.from, W.Arriving(list), nodes, t) && rec == H.RecordOf(read, nodes, t)
  }

  /** Rank a becomes rank r by merging the message's nodes and processing its records as they arrive. */
  ghost predicate Received(read: H.Reading, a: Rank, m: Message, r: Rank)
    requires M.WellFormed(m.from)
  {
    && M.WellFormed(r.nodes) && a.nodes <= r.nodes && r.ord == a.ord
    && |r.stream| == |a.stream| + |m.lists| && r.stream[..|a.stream|] == a.stream
    && forall j: nat | j < |m.lists| :: ReceivedAs(read, m, m.lists[j], r.nodes, r.stream[|a.stream| + j])
  }

  ghost predicate AllFit(lists: seq<seq<W.WireEntry>>) {
    forall j: nat | j < |lists| :: W.FitsWire(lists[j])
  }

  ghost predicate HoppedBy(c: Config, read: H.Reading, a: Rank, b: Rank, r: Rank, m: Message) {
    Sent(c, read, b, m) && Received(read, a, m, r) && (r.fit <==> a.fit && b.fit && AllFit(m.lists))
  }

  /** Rank a may become rank r by receiving from rank b. */
  ghost predicate Hopped(c: Config, read: H.Reading, a: Rank, b: Rank, r: Rank) {
    exists m: Message :: HoppedBy(c, read, a, b, r, m)
  }

  /** If every record fits, the receiver processes exactly the flushed records. */
  lemma HoppedWhole(c: Config, read: H.Reading, a: Rank, b: Rank, r: Rank, m: Message)
    requires HoppedBy(c, read, a, b, r, m) && AllFit(m.lists)
    ensures r.stream == a.stream + Flush(c, b.ord, b.stream)
  {
    hide M.WellFormed, Flush, Written, W.FitsWire, H.SameMeaning, H.RecordOf, H.Translate;
    var recs := Flush(c, b.ord, b.stream);
    forall j: nat | j < |recs| ensures r.stream[|a.stream| + j] == recs[j] {
      assert ReceivedAs(read, m, m.lists[j], r.nodes, r.stream[|a.stream| + j]);
      ArrivesIntactIff(read, m.from, m.lists[j], recs[j], r.nodes, H.Translate(W.Arriving(m.lists[j]), m.idmap));
    }
    assert r.stream == r.stream[..|a.stream|] + r.stream[|a.stream|..];
    assert r.stream[|a.stream|..] == recs;
  }

  function Records(input: seq<seq<Record>>, ranks: seq<nat>): seq<Record>
    requires forall i: nat | i < |ranks| :: ranks[i] < |input|
  {
    if |ranks| == 0 then [] else input[ranks[0]] + Records(input, ranks[1..])
  }

  lemma {:induction false} RecordsJoin(input: seq<seq<Record>>, x: seq<nat>, y: seq<nat>)
    requires forall i: nat | i < |x| :: x[i] < |input|
    requires forall i: nat | i < |y| :: y[i] < |input|
    ensures Records(input, x + y) == Records(input, x) + Records(input, y)
  {
    if |x| == 0 {
      assert x + y == y;
    } else {
      RecordsJoin(input, x[1..], y);
      assert (x + y)[1..] == x[1..] + y;
    }
  }

  /** If all that a rank received has fitted, its aggregator has the results of the records of the ranks
      it stands for. */
  ghost predicate StandsFor(c: Config, input: seq<seq<Record>>, a: Rank, ranks: seq<nat>) {
    && (forall i: nat | i < |ranks| :: ranks[i] < |input|)
    && (a.fit ==> Mergeable(c, a.stream) && SameResults(c, a.stream, Records(input, ranks)))
  }

  lemma MergeableJoin(c: Config, rs: seq<Record>, ss: seq<Record>)
    requires Mergeable(c, rs) && Mergeable(c, ss)
    ensures Mergeable(c, rs + ss)
  {
    hide RecordOk, Worth, CountsFor, AnyInclusive;
  }

  lemma SameTransitive(c: Config, rs: seq<Record>, ss: seq<Record>, ts: seq<Record>)
    requires SameResults(c, rs, ss) && SameResults(c, ss, ts)
    ensures SameResults(c, rs, ts)
  {
    hide KeyList, At, Total, Composable;
    forall a: Key ensures a in KeyList(c, rs) <==> a in KeyList(c, ts) {
      assert a in KeyList(c, ss) <==> a in KeyList(c, ts);
    }
    forall i: nat, a: Key | i < |c.kernels| && Composable(c, c.kernels[i]) ensures At(c, i, rs, a) == At(c, i, ts, a) {
      assert At(c, i, ss, a) == At(c, i, ts, a);
    }
  }

  lemma FlushMergeable(c: Config, ord: Order, rs: seq<Record>)
    requires WfConfig(c) && Mergeable(c, rs)
    ensures Mergeable(c, Flush(c, ord, rs))
  {
    hide WfConfig, RecordsOk, NonNegative, EveryCounts, Flush;
    FlushOk(c, ord, rs);
  }

  /** Receiving a rank's flush adds the records that rank stands for. */
  lemma HoppedStandsFor(c: Config, read: H.Reading, input: seq<seq<Record>>, a: Rank, x: seq<nat>, b: Rank, y: seq<nat>, r: Rank)
    requires WfConfig(c) && StandsFor(c, input, a, x) && StandsFor(c, input, b, y) && Hopped(c, read, a, b, r)
    ensures StandsFor(c, input, r, x + y)
  {
    hide WfConfig, Mergeable, SameResults, Flush, AllFit, Sent, Received;
    var m: Message :| HoppedBy(c, read, a, b, r, m);
    var sent := Flush(c, b.ord, b.stream);
    if r.fit {
      HoppedWhole(c, read, a, b, r, m);
      FlushMergeable(c, b.ord, b.stream);
      MergeableJoin(c, a.stream, sent);
      FlushSameResults(c, b.ord, b.stream);
      SameTransitive(c, sent, b.stream, Records(input, y));
      SameJoin(c, a.stream, Records(input, x), sent, Records(input, y));
      RecordsJoin(input, x, y);
    }
  }

  lemma SameItself(c: Config, rs: seq<Record>)
    ensures SameResults(c, rs, rs)
  {
  }

  /** Wherever two ranks of the run meet, the receiver gets what the hop makes of the sender's flush. */
  ghost predicate HopsAlong(P: nat, c: Config, read: H.Reading, run: seq<R.State<Rank>>, merge: (Rank, Rank) -> Rank) {
    forall i: nat, r: nat, q: nat | i + 1 < |run| && R.Meet(P, run[i], r, q, run[i + 1], merge) ::
      Hopped(c, read, run[i].data[r], run[i].data[q], run[i + 1].data[r])
  }

  /** For every number of ranks, every distribution of the records, every interleaving of the ranks and
      whatever the databases and id maps are: if every flushed record fitted its message, rank 0 ends with
      the entries, the totals and, for every composable kernel, the visible states of one aggregator fed the
      records of all ranks. */
  lemma AggregateOverRanks(P: nat, c: Config, read: H.Reading, input: seq<seq<Record>>, run: seq<R.State<Rank>>, merge: (Rank, Rank) -> Rank)
    requires P > 0 && WfConfig(c) && |input| == P
    requires forall r: nat | r < P :: Mergeable(c, input[r])
    requires R.IsRun(P, run, merge) && HopsAlong(P, c, read, run, merge)
    requires forall r: nat | r < P :: run[0].data[r].stream == input[r]
    requires var s := run[|run| - 1]; |s.pos| == P && forall r: nat | r < P :: R.Finished(P, s.pos[r])
    ensures |run[|run| - 1].data| == P
    ensures var end := run[|run| - 1].data[0];
            end.fit ==> SameResults(c, end.stream, Records(input, R.Range(0, P)))
  {
    hide WfConfig, Mergeable, SameResults, R.Next, R.Finished, R.Meet, R.KeptBy, Hopped;
    var rel := (a: Rank, ranks: seq<nat>) => StandsFor(c, input, a, ranks);
    forall i: nat | i + 1 < |run| ensures R.KeptBy(P, run[i], run[i + 1], merge, rel) {
      StandsForKept(P, c, read, input, run, merge, i);
    }
    forall r: nat | r < P
      ensures rel(run[0].data[r], [r])
    {
      assert Records(input, [r]) == input[r] by { assert [r][1..] == [] && input[r] + [] == input[r]; }
      SameItself(c, input[r]);
    }
    R.ReductionAlong(P, run, merge, rel);
  }

  /** So what rank 0 then flushes answers for the raw records of all ranks. */
  lemma RankZeroAnswers(P: nat, c: Config, read: H.Reading, input: seq<seq<Record>>, run: seq<R.State<Rank>>, merge: (Rank, Rank) -> Rank,
                        key: Key, i: nat)
    requires P > 0 && WfConfig(c) && |input| == P
    requires forall r: nat | r < P :: Mergeable(c, input[r])
    requires R.IsRun(P, run, merge) && HopsAlong(P, c, read, run, merge)
    requires forall r: nat | r < P :: run[0].data[r].stream == input[r]
    requires var s := run[|run| - 1]; |s.pos| == P && |s.data| == P && forall r: nat | r < P :: R.Finished(P, s.pos[r])
    requires i < |c.kernels| && Composable(c, c.kernels[i]) && forall r: nat | r < P :: K.AllRaw(c.kernels[i], input[r])
    ensures var end, all := run[|run| - 1].data[0], Records(input, R.Range(0, P));
            end.fit ==>
              && (key in KeyList(c, end.stream) <==> key in KeyList(c, all))
              && (key in KeyList(c, end.stream) ==> K.Answers(c, i, all, key, FlushRecord(c, end.ord, end.stream, key)))
  {
    hide WfConfig, Mergeable, KeyList, At, Total, Composable, R.Next, R.Finished, HopsAlong, FlushRecord, K.Answers, K.AllRaw, StateAt, Report;
    AggregateOverRanks(P, c, read, input, run, merge);
    var end, all := run[|run| - 1].data[0], Records(input, R.Range(0, P));
    if end.fit {
      assert key in KeyList(c, end.stream) <==> key in KeyList(c, all);
      if key in KeyList(c, end.stream) {
        WfConfigKeys(c);
        KeyListCanonical(c, end.stream, key);
        SameReports(c, end.stream, all, i, key);
        RawRecords(c.kernels[i], input, R.Range(0, P));
        K.AnswersFor(c, end.ord, end.stream, all, key, i);
      }
    }
  }

  lemma {:induction false} RawRecords(k: Kernel, input: seq<seq<Record>>, ranks: seq<nat>)
    requires forall j: nat | j < |ranks| :: ranks[j] < |input|
    requires forall r: nat | r < |input| :: K.AllRaw(k, input[r])
    ensures K.AllRaw(k, Records(input, ranks))
  {
    hide K.Raw;
    if |ranks| > 0 {
      RawRecords(k, input, ranks[1..]);
      assert K.AllRaw(k, input[ranks[0]]);
    }
  }

  lemma StandsForKept(P: nat, c: Config, read: H.Reading, input: seq<seq<Record>>, run: seq<R.State<Rank>>,
                      merge: (Rank, Rank) -> Rank, i: nat)
    requires WfConfig(c) && HopsAlong(P, c, read, run, merge) && i + 1 < |run|
    ensures R.KeptBy(P, run[i], run[i + 1], merge, (a: Rank, ranks: seq<nat>) => StandsFor(c, input, a, ranks))
  {
    hide WfConfig, StandsFor, Hopped, R.Meet;
    var s, s' := run[i], run[i + 1];
    forall r: nat, q: nat | R.Meet(P, s, r, q, s', merge)
      ensures MeetInside(P, s, r, q, s')
      ensures StandsFor(c, input, s.data[r], s.holds[r]) && StandsFor(c, input, s.data[q], s.holds[q]) ==>
                StandsFor(c, input, s'.data[r], s.holds[r] + s.holds[q])
    {
      MeetSizes(P, s, r, q, s', merge);
      if StandsFor(c, input, s.data[r], s.holds[r]) && StandsFor(c, input, s.data[q], s.holds[q]) {
        HoppedStandsFor(c, read, input, s.data[r], s.holds[r], s.data[q], s.holds[q], s'.data[r]);
      }
    }
  }

  ghost predicate MeetInside<D>(P: nat, s: R.State<D>, r: nat, q: nat, s': R.State<D>) {
    R.Sized(P, s) && R.Sized(P, s') && r < P && q < P
  }

  lemma MeetSizes<D>(P: nat, s: R.State<D>, r: nat, q: nat, s': R.State<D>, merge: (D, D) -> D)
    requires R.Meet(P, s, r, q, s', merge)
    ensures MeetInside(P, s, r, q, s')
  {
  }

  // ----- Records that are small enough -----

  /** Every key has at most m values. */
  ghost predicate KeyValues(c: Config, rs: seq<Record>, m: nat) {
    forall key: Key | key in KeyList(c, rs) :: |key.imms| <= m
  }

  lemma {:induction false} ResultsLength(c: Config, rs: seq<Record>, key: Key, n: nat)
    requires n <= |c.kernels|
    ensures |Results(c, rs, key, n)| <= 4 * n
  {
    hide Report, StateAt, Total;
    if n > 0 {
      ResultsLength(c, rs, key, n - 1);
      ReportLength(c.kernels[n - 1], StateAt(c, n - 1, rs, key), Total(c, n - 1, rs));
    }
  }

  lemma ReportLength(k: Kernel, s: Acc, total: real)
    ensures |Report(k, s, total)| <= 4
    ensures k.kind.Variance? && s.count > 0 ==> |Report(k, s, total)| == 4
  {
  }

  lemma {:induction false} SortLength<V>(ord: Order, l: seq<Pair<V>>)
    ensures |StableSort(ord, l)| == |l|
  {
    if |l| > 0 {
      SortLength(ord, l[1..]);
      InsertLength(ord, l[0], StableSort(ord, l[1..]));
    }
  }

  lemma {:induction false} InsertLength<V>(ord: Order, x: Pair<V>, l: seq<Pair<V>>)
    ensures |Insert(ord, x, l)| == |l| + 1
  {
    if |l| > 0 && ord(x.attr) > ord(l[0].attr) { InsertLength(ord, x, l[1..]); }
  }

  /** A flushed record has at most four values for every kernel and those of its key. */
  lemma FlushedLength(c: Config, ord: Order, rs: seq<Record>, key: Key)
    ensures |Items(FlushRecord(c, ord, rs, key))| <= |key.imms| + 4 * |c.kernels|
    ensures |FlushRecord(c, ord, rs, key)| <= 1 + |Items(FlushRecord(c, ord, rs, key))|
  {
    hide Results;
    ItemsKey(Rekey(ord, key), Results(c, rs, key, |c.kernels|));
    SortLength(ord, key.imms);
    ResultsLength(c, rs, key, |c.kernels|);
  }

  ghost predicate AllAtMost(lists: seq<seq<W.WireEntry>>, most: nat) {
    forall j: nat | j < |lists| :: W.AtMost(W.Values(lists[j]), most)
  }

  // So many values of at most that many bytes, beside a reference, fit one message.
  predicate FitsAtMost(n: nat, most: nat) {
    n < 128 && 12 + most * n <= W.INTERNAL_BUFFER
  }

  /** Four values for every kernel and those of the keys: if so many values of the greatest length fit, every
      flushed record does, and so it stays for what is flushed later. */
  lemma SmallFlushFits(c: Config, read: H.Reading, b: Rank, m: Message, n: nat, most: nat)
    requires WfConfig(c) && Sent(c, read, b, m) && AllAtMost(m.lists, most)
    requires KeyValues(c, b.stream, n) && FitsAtMost(n + 4 * |c.kernels|, most)
    ensures AllFit(m.lists) && KeyValues(c, Flush(c, b.ord, b.stream), n)
  {
    hide FlushRecord, W.FitsWire, Items, KeyList, FlushKeys, WfConfig, Written, M.WellFormed;
    var ks := KeyList(c, b.stream);
    FlushLength(c, b.ord, b.stream, ks);
    forall j: nat | j < |ks| ensures W.FitsWire(m.lists[j]) {
      SmallFits(c, read, b.ord, b.stream, ks[j], m.from, m.lists[j], n + 4 * |c.kernels|, most);
    }
    forall key: Key | key in KeyList(c, Flush(c, b.ord, b.stream)) ensures |key.imms| <= n { KeysPreserved(c, b.ord, b.stream, key); }
  }

  lemma SmallFits(c: Config, read: H.Reading, ord: Order, rs: seq<Record>, key: Key, from: M.Nodes, list: seq<W.WireEntry>, n: nat, most: nat)
    requires Written(read, from, list, FlushRecord(c, ord, rs, key)) && W.AtMost(W.Values(list), most)
    requires |key.imms| + 4 * |c.kernels| <= n && FitsAtMost(n, most)
    ensures W.FitsWire(list)
  {
    hide FlushRecord, W.FitsWire, W.Refs, W.Values, Items, W.AtMost, M.WellFormed, H.RecordOf;
    FlushedLength(c, ord, rs, key);
    WrittenLengths(read, from, list, FlushRecord(c, ord, rs, key));
    FewerFit(|W.Values(list)|, n, most);
    W.BoundedFits(list, most);
  }

  /** With numbers under attributes with ids of at most two bytes, 38 values for the key and the kernels
      together fit, so nine kernels always do. */
  lemma ShortIdsFit(c: Config, read: H.Reading, b: Rank, m: Message, n: nat)
    requires WfConfig(c) && Sent(c, read, b, m) && KeyValues(c, b.stream, n) && n + 4 * |c.kernels| <= 38
    requires forall j: nat, k: nat | j < |m.lists| && k < |W.Values(m.lists[j])| :: W.ShortNumber(W.Values(m.lists[j])[k])
    ensures AllFit(m.lists)
  {
    hide WfConfig, Sent, KeyValues, AllFit, W.ShortNumber, W.Values, W.EncodeImm;
    forall j: nat | j < |m.lists| ensures W.AtMost(W.Values(m.lists[j]), 13) {
      SentValid(c, read, b, m, j);
      forall k: nat | k < |W.Values(m.lists[j])| ensures |W.EncodeImm(W.Values(m.lists[j])[k])| <= 13 {
        W.ShortImm(W.Values(m.lists[j])[k]);
      }
    }
    SmallFlushFits(c, read, b, m, n, 13);
  }

  lemma SentValid(c: Config, read: H.Reading, b: Rank, m: Message, j: nat)
    requires Sent(c, read, b, m) && j < |m.lists|
    ensures W.AllValid(W.Values(m.lists[j]))
  {
    hide M.WellFormed, H.RecordOf, Flush, W.Refs, W.Values;
    var rec := Flush(c, b.ord, b.stream)[j];
    assert Written(read, m.from, m.lists[j], rec);
    W.EntriesValid(m.lists[j]);
  }

  lemma FewerFit(k: nat, n: nat, most: nat)
    requires k <= n && FitsAtMost(n, most)
    ensures FitsAtMost(k, most)
  {
    assert most * n == most * k + most * (n - k) && most * (n - k) >= 0;
  }

  ghost predicate HoppedShort(c: Config, read: H.Reading, most: nat, a: Rank, b: Rank, r: Rank) {
    exists m: Message :: HoppedBy(c, read, a, b, r, m) && AllAtMost(m.lists, most)
  }

  ghost predicate Small(c: Config, n: nat, a: Rank) {
    a.fit && KeyValues(c, a.stream, n)
  }

  lemma HoppedSmall(c: Config, read: H.Reading, n: nat, most: nat, a: Rank, b: Rank, r: Rank)
    requires WfConfig(c) && FitsAtMost(n + 4 * |c.kernels|, most) && Small(c, n, a) && Small(c, n, b)
    requires HoppedShort(c, read, most, a, b, r)
    ensures Small(c, n, r)
  {
    hide WfConfig, Flush, AllFit, KeyList, Sent, Received, AllAtMost, FitsAtMost;
    var m: Message :| HoppedBy(c, read, a, b, r, m) && AllAtMost(m.lists, most);
    SmallFlushFits(c, read, b, m, n, most);
    HoppedWhole(c, read, a, b, r, m);
    forall key: Key | key in KeyList(c, r.stream) ensures |key.imms| <= n {
      KeyListJoin(c, a.stream, Flush(c, b.ord, b.stream), key);
    }
  }

  ghost predicate ShortHopsAlong(P: nat, c: Config, read: H.Reading, most: nat, run: seq<R.State<Rank>>, merge: (Rank, Rank) -> Rank) {
    forall i: nat, r: nat, q: nat | i + 1 < |run| && R.Meet(P, run[i], r, q, run[i + 1], merge) ::
      HoppedShort(c, read, most, run[i].data[r], run[i].data[q], run[i + 1].data[r])
  }

  /** If so many values of the greatest length fit one message, no run over any number of ranks drops
      anything. With two-byte attribute ids these are 38 values, with any ids 16. */
  lemma SmallRunsFit(P: nat, c: Config, read: H.Reading, n: nat, most: nat, run: seq<R.State<Rank>>, merge: (Rank, Rank) -> Rank)
    requires P > 0 && WfConfig(c) && FitsAtMost(n + 4 * |c.kernels|, most)
    requires R.IsRun(P, run, merge) && ShortHopsAlong(P, c, read, most, run, merge)
    requires forall r: nat | r < P :: run[0].data[r].fit && KeyValues(c, run[0].data[r].stream, n)
    requires var s := run[|run| - 1]; |s.pos| == P && forall r: nat | r < P :: R.Finished(P, s.pos[r])
    ensures |run[|run| - 1].data| == P && run[|run| - 1].data[0].fit
    ensures FitsAtMost(38, 13) && FitsAtMost(16, 30)
  {
    hide WfConfig, KeyValues, R.Next, R.Finished, R.Meet, R.KeptBy, HoppedShort;
    var rel := (a: Rank, ranks: seq<nat>) => Small(c, n, a);
    forall i: nat | i + 1 < |run| ensures R.KeptBy(P, run[i], run[i + 1], merge, rel) {
      SmallKept(P, c, read, n, most, run, merge, i);
    }
    R.ReductionAlong(P, run, merge, rel);
  }

  lemma SmallKept(P: nat, c: Config, read: H.Reading, n: nat, most: nat, run: seq<R.State<Rank>>, merge: (Rank, Rank) -> Rank, i: nat)
    requires WfConfig(c) && FitsAtMost(n + 4 * |c.kernels|, most) && ShortHopsAlong(P, c, read, most, run, merge) && i + 1 < |run|
    ensures R.KeptBy(P, run[i], run[i + 1], merge, (a: Rank, ranks: seq<nat>) => Small(c, n, a))
  {
    hide WfConfig, Small, HoppedShort, R.Meet, FitsAtMost;
    var s, s' := run[i], run[i + 1];
    forall r: nat, q: nat | R.Meet(P, s, r, q, s', merge)
      ensures MeetInside(P, s, r, q, s')
      ensures Small(c, n, s.data[r]) && Small(c, n, s.data[q]) ==> Small(c, n, s'.data[r])
    {
      MeetSizes(P, s, r, q, s', merge);
      if Small(c, n, s.data[r]) && Small(c, n, s.data[q]) { HoppedSmall(c, read, n, most, s.data[r], s.data[q], s'.data[r]); }
    }
  }

  // ----- A record that is too large -----

  ghost predicate AllVariances(c: Config, rs: seq<Record>, key: Key) {
    forall i: nat | i < |c.kernels| :: c.kernels[i].kind.Variance? && StateAt(c, i, rs, key).count > 0
  }

  lemma {:induction false} VarianceResults(c: Config, rs: seq<Record>, key: Key, n: nat, m: nat)
    requires n <= m <= |c.kernels|
    requires AllVariances(c, rs, key)
    ensures |Results(c, rs, key, m)| == 4 * m && Results(c, rs, key, m)[..4 * n] == Results(c, rs, key, n)
    decreases m
  {
    hide StateAt, Total, Report, Results;
    if m == 0 {
      NoResults(c, rs, key);
    } else {
      ResultsLast(c, rs, key, m);
      ReportLength(c.kernels[m - 1], StateAt(c, m - 1, rs, key), Total(c, m - 1, rs));
      if n < m {
        VarianceResults(c, rs, key, n, m - 1);
        assert Results(c, rs, key, m)[..4 * n] == Results(c, rs, key, m - 1)[..4 * n];
      } else {
        VarianceResults(c, rs, key, n - 1, m - 1);
      }
    }
  }

  lemma NoResults(c: Config, rs: seq<Record>, key: Key)
    ensures Results(c, rs, key, 0) == []
  {
  }

  /** The receiver reads the values of the entries that arrive, and no others. */
  lemma ArrivingItems(read: H.Reading, from: M.Nodes, list: seq<W.WireEntry>, rec: Record, to: M.Nodes, t: W.Rec, n: nat)
    requires Written(read, from, list, rec) && M.WellFormed(to) && H.SameMeaning(read, from, W.Arriving(list), to, t)
    requires n <= |W.Values(list)| && W.Arriving(list).imms == W.Values(list)[..n]
    ensures n <= |Items(rec)| && Items(H.RecordOf(read, to, t)) == Items(rec)[..n]
  {
    hide M.WellFormed, H.RecordOf, Items, W.Refs, W.Values, W.Arriving, H.ReadImm;
    H.ItemsOf(read, from, W.WholeRecord(list));
    H.ItemsOf(read, from, W.Arriving(list));
    var all, some := Items(rec), Items(H.RecordOf(read, to, t));
    forall k: nat | k < n ensures some[k] == all[k] {
      assert W.Arriving(list).imms[k] == W.Values(list)[k];
      assert Imm(some[k]) == Imm(all[k]);
    }
  }

  /** Variances whose reports take blocks of equal length: of a flushed record only the reports of the
      first kernels arrive, so the receiver gets nothing of the others although the sender has counted. */
  lemma VariancesDropped(c: Config, read: H.Reading, ord: Order, rs: seq<Record>, key: Key, from: M.Nodes, id: nat, imms: seq<W.Imm>,
                         to: M.Nodes, t: W.Rec, len: nat, i: nat)
    requires WfConfig(c) && len > 0 && W.Room(len) <= i < |c.kernels| && key.imms == [] && AllVariances(c, rs, key)
    requires Written(read, from, W.Flushed(id, imms), FlushRecord(c, ord, rs, key)) && W.EqualBlocks(imms, len)
    requires M.WellFormed(to) && H.SameMeaning(read, from, W.Arriving(W.Flushed(id, imms)), to, t)
    ensures !W.FitsWire(W.Flushed(id, imms)) && At(c, i, rs, key).n > 0
    ensures forall at: Key :: Gain(c, i, H.RecordOf(read, to, t), at) == NOTHING
  {
    hide WfConfig, Results, StateAt, W.EqualBlocks, W.FitsWire, W.Arriving, W.Room, W.Flushed, FlushRecord, Items, KeyIn, Aggregate,
      H.ListIn, M.WellFormed, H.SameMeaning, H.RecordOf, AllVariances;
    var n, list, rec := W.Room(len), W.Flushed(id, imms), FlushRecord(c, ord, rs, key);
    W.FlushedParts(id, imms);
    WrittenLengths(read, from, list, rec);
    FlushedItemsAre(c, ord, rs, key);
    VarianceResults(c, rs, key, n, |c.kernels|);
    FullBlocks(|c.kernels|);
    W.BlocksArrive(id, imms, len);
    W.ArrivesWholeIff(list);
    assert W.Arriving(list) != W.WholeRecord(list) by { assert |W.Arriving(list).imms| < |W.Values(list)|; }
    ArrivingItems(read, from, list, rec, to, t, 4 * n);
    ReadableIn(read, from, W.Arriving(list), to, t);
    ResultsUnread(c, rs, key, i, n);
    UnreadAfter(c.kernels[i], ZERO, Items(H.RecordOf(read, to, t)));
    HasCounted(c, rs, key, i);
    NothingRead(c.kernels[i]);
  }

  lemma HasCounted(c: Config, rs: seq<Record>, key: Key, i: nat)
    requires AllVariances(c, rs, key) && i < |c.kernels|
    ensures c.kernels[i].kind.Variance? && At(c, i, rs, key).n > 0
  {
    hide StateAt;
  }

  /** With doubles of at least one and counts below 128 under attributes with two-byte ids, nothing
      arrives of the kernels behind the twelfth. */
  lemma ThirteenthVarianceDropped(c: Config, read: H.Reading, ord: Order, rs: seq<Record>, key: Key, from: M.Nodes, id: nat, imms: seq<W.Imm>,
                                  to: M.Nodes, t: W.Rec, i: nat)
    requires WfConfig(c) && 12 <= i < |c.kernels| && key.imms == [] && AllVariances(c, rs, key)
    requires Written(read, from, W.Flushed(id, imms), FlushRecord(c, ord, rs, key)) && W.VarianceReports(imms)
    requires M.WellFormed(to) && H.SameMeaning(read, from, W.Arriving(W.Flushed(id, imms)), to, t)
    ensures !W.FitsWire(W.Flushed(id, imms)) && At(c, i, rs, key).n > 0
    ensures forall at: Key :: Gain(c, i, H.RecordOf(read, to, t), at) == NOTHING
  {
    hide WfConfig, AllVariances, Written, W.EqualBlocks, W.VarianceReports, W.FitsWire, W.Arriving, W.Flushed, H.SameMeaning, Gain, At;
    W.ReportsEqual(imms);
    VariancesDropped(c, read, ord, rs, key, from, id, imms, to, t, 40, i);
  }

  lemma FullBlocks(n: nat)
    ensures (W.BLOCK * n) % W.BLOCK == 0 && W.BLOCK * n / W.BLOCK == n
  {
  }

  lemma FlushedItemsAre(c: Config, ord: Order, rs: seq<Record>, key: Key)
    requires key.imms == []
    ensures Items(FlushRecord(c, ord, rs, key)) == Results(c, rs, key, |c.kernels|)
  {
    hide Results;
    ItemsKey(Rekey(ord, key), Results(c, rs, key, |c.kernels|));
    assert [] + Results(c, rs, key, |c.kernels|) == Results(c, rs, key, |c.kernels|);
  }

  // ----- The aggregators themselves -----

  /** Receiving another aggregator's flush through the databases: nodes and records are packed and sent,
      nodes are merged, records are translated, read and processed. Given some way to write each flushed
      record in the sender's database, the receiver becomes what the hop allows; nothing is dropped if and
      only if every record fits, and then it has the results of both. */
  method Combine(a: Aggregator, b: Aggregator, write: Record -> seq<W.WireEntry>, from: M.Nodes, to: M.MetadataDB, read: H.Reading)
    returns (dropped: nat)
    requires a != b && a.c == b.c && a.Valid() && b.Valid() && a.AllActive() && b.AllActive()
    requires M.WellFormed(from) && to.Valid() && |to.nodes| + |from| <= V.U64 / 2
    requires var recs := Flush(b.c, b.ord, b.stream); forall j: nat | j < |recs| :: Written(read, from, write(recs[j]), recs[j])
    modifies a, to
    ensures a.Valid() && to.Valid()
    ensures Hopped(a.c, read, Rank(a.ord, old(to.nodes), old(a.stream), true), Rank(b.ord, from, b.stream, true),
                   Rank(a.ord, to.nodes, a.stream, dropped == 0))
    ensures WfConfig(a.c) && Mergeable(b.c, b.stream) && dropped == 0 ==> SameResults(a.c, a.stream, old(a.stream) + b.stream)
  {
    hide Flush, WfConfig, Mergeable, SameResults, Aggregator.Valid, W.FitsWire, W.Arriving, Written, M.WellFormed,
      H.SameMeaning, H.Translate, H.ListIn, M.MetadataDB.Valid;
    var recs := b.Flush();
    ghost var rank := Rank(a.ord, to.nodes, a.stream, true);
    var lists := Lists(write, recs, from, read);
    var sent: seq<W.Rec>;
    ghost var idmap: M.IdMap;
    sent, dropped, idmap := H.Hop(from, lists, to, read);
    ghost var m := Message(from, lists, idmap);
    ProcessAll(a, sent, to.nodes, read, m);
    assert HoppedBy(a.c, read, rank, Rank(b.ord, from, b.stream, true), Rank(a.ord, to.nodes, a.stream, dropped == 0), m);
    if WfConfig(b.c) && Mergeable(b.c, b.stream) && dropped == 0 {
      HoppedWhole(b.c, read, rank, Rank(b.ord, from, b.stream, true), Rank(a.ord, to.nodes, a.stream, true), m);
      FlushSameResults(b.c, b.ord, b.stream);
      SameItself(b.c, rank.stream);
      SameJoin(b.c, rank.stream, rank.stream, recs, b.stream);
    }
  }

  method ProcessAll(a: Aggregator, sent: seq<W.Rec>, nodes: M.Nodes, read: H.Reading, ghost m: Message)
    requires a.Valid() && M.WellFormed(m.from) && M.WellFormed(nodes) && |sent| == |m.lists|
    requires forall j: nat | j < |sent| :: sent[j] == H.Translate(W.Arriving(m.lists[j]), m.idmap)
    requires forall j: nat | j < |sent| :: H.SameMeaning(read, m.from, W.Arriving(m.lists[j]), nodes, sent[j])
    modifies a
    ensures a.Valid() && |a.stream| == |old(a.stream)| + |sent| && a.stream[..|old(a.stream)|] == old(a.stream)
    ensures forall j: nat | j < |sent| :: ReceivedAs(read, m, m.lists[j], nodes, a.stream[|old(a.stream)| + j])
  {
    hide Aggregator.Valid, W.Arriving, M.WellFormed, H.SameMeaning, H.Translate, H.RecordOf;
    ghost var start := a.stream;
    for j := 0 to |sent|
      invariant a.Valid() && |a.stream| == |start| + j && a.stream[..|start|] == start
      invariant forall i: nat | i < j :: ReceivedAs(read, m, m.lists[i], nodes, a.stream[|start| + i])
    {
      ReadableIn(read, m.from, W.Arriving(m.lists[j]), nodes, sent[j]);
      ghost var before := a.stream;
      a.Process(H.RecordOf(read, nodes, sent[j]));
      assert forall i: nat | i < |before| :: a.stream[i] == before[i];
    }
  }

  lemma ReadableIn(read: H.Reading, from: M.Nodes, r: W.Rec, to: M.Nodes, t: W.Rec)
    requires M.WellFormed(from) && M.WellFormed(to) && H.SameMeaning(read, from, r, to, t)
    ensures H.InDatabase(to, t)
  {
    hide M.WellFormed, H.RecordOf;
  }

  method Lists(write: Record -> seq<W.WireEntry>, recs: seq<Record>, ghost from: M.Nodes, ghost read: H.Reading)
    returns (lists: seq<seq<W.WireEntry>>)
    requires forall j: nat | j < |recs| :: Written(read, from, write(recs[j]), recs[j])
    ensures |lists| == |recs| && forall j: nat | j < |recs| :: Written(read, from, lists[j], recs[j]) && H.ListIn(from, lists[j])
  {
    hide M.WellFormed, H.ListIn, H.RecordOf;
    lists := [];
    for j := 0 to |recs|
      invariant |lists| == j && forall i: nat | i < j :: Written(read, from, lists[i], recs[i]) && H.ListIn(from, lists[i])
    {
      assert Written(read, from, write(recs[j]), recs[j]);
      lists := lists + [write(recs[j])];
    }
  }

  /** A rank whose database does not know a kernel's target drops the results it receives, so the
      reduction keeps them exactly if the target is known or there is nothing to keep. */
  lemma UnknownTargetIff(c: Config, known: seq<bool>, i: nat, ord: Order, rs: seq<Record>, ss: seq<Record>, key: Key)
    requires WfConfig(c) && |known| == |c.kernels| && i < |c.kernels| && Composable(c, c.kernels[i])
    requires Mergeable(c, ss)
    ensures Observe(c.kernels[i], Seen(c, known, i, rs + Flush(c, ord, ss), key)) == At(c, i, rs + ss, key)
       <==> known[i] || c.kernels[i].kind.Count? || c.kernels[i].kind.Scale? || At(c, i, rs + ss, key) == NOTHING
  {
    hide WfConfig, Mergeable, Flush, StateAt, AnyInclusive;
    AtJoin(c, i, rs, Flush(c, ord, ss), key);
    AtJoin(c, i, rs, ss, key);
    FlushPreserves(c, ord, ss, key, i);
  }

  /** One record on a rank that sends it to a rank that has never seen its target. */
  lemma UnknownTargetExample()
    ensures var c := ExampleConfig([ExampleKernel(Sum, false, 10)]);
            var sent := Flush(c, Plain(), [ExampleRecord(INNER, 10, 1.0)]);
            && WfConfig(c)
            && Seen(c, [true], 0, sent, INNER).sum == 1.0 && Seen(c, [false], 0, sent, INNER).sum == 0.0
  {
    hide ExampleRecord, KeyIn, StateAt, Flush, Aggregate, RecordOk, WfConfig, Items;
    var k := ExampleKernel(Sum, false, 10);
    var c := ExampleConfig([k]);
    var rec := ExampleRecord(INNER, 10, 1.0);
    ExampleWf(k, ExampleKernel(Min, true, 20));
    ExampleMeaning([k], INNER, 10, 1.0);
    OneOk(c, rec, Pair(10, 1.0));
    ReadOne(k, ZERO, Pair(10, 1.0));
    StateOne(c, 0, rec, INNER);
    ExclusivePreserved(c, Plain(), [rec], INNER, 0);
  }
}
