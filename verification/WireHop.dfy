/** One message between two ranks: the sender's records and the nodes they refer to are packed, sent,
    merged and translated, and the receiver ends up with records of the same meaning. */
module WireHops {
  import opened Vlenc
  import opened SnapshotRecords
  import opened MetadataMerge
  import K = AggregationKeys

  /** How the receiver and the sender both read what they store: attribute nodes as attributes, node
      data as label values and variants as numbers. */
  datatype Reading = Reading(attr: Meaning -> K.Attr, text: (nat, seq<Byte>) -> string, number: WireVariant -> real)

  /** The root path of a node, outermost label first. */
  function PathOf(read: Reading, m: Meaning): seq<K.Label> {
    match m
    case Top => []
    case Boot(_) => [K.Pair(read.attr(m), "")]
    case Child(up, attr, typ, data) => PathOf(read, up) + [K.Pair(read.attr(attr), read.text(typ, data))]
  }

  ghost predicate InDatabase(nodes: Nodes, r: Rec) {
    && (forall k: nat | k < |r.ids| :: r.ids[k] < |nodes|)
    && (forall k: nat | k < |r.imms| :: r.imms[k].attr < |nodes|)
  }

  function ReadRef(read: Reading, nodes: Nodes, id: nat): K.Entry
    requires WellFormed(nodes) && id < |nodes|
  {
    K.Ref(PathOf(read, MeaningOf(nodes, id)))
  }

  function ReadImm(read: Reading, nodes: Nodes, i: Imm): K.Entry
    requires WellFormed(nodes) && i.attr < |nodes|
  {
    K.Imm(K.Pair(read.attr(MeaningOf(nodes, i.attr)), read.number(i.value)))
  }

  /** The meaning of a record of ids in a database. */
  function RecordOf(read: Reading, nodes: Nodes, r: Rec): (rec: K.Record)
    requires WellFormed(nodes) && InDatabase(nodes, r)
    ensures |rec| == |r.ids| + |r.imms|
    ensures forall k: nat | k < |r.ids| :: rec[k] == ReadRef(read, nodes, r.ids[k])
    ensures forall k: nat | k < |r.imms| :: rec[|r.ids| + k] == ReadImm(read, nodes, r.imms[k])
  {
    seq(|r.ids|, k requires 0 <= k < |r.ids| && WellFormed(nodes) && InDatabase(nodes, r) => ReadRef(read, nodes, r.ids[k]))
    + seq(|r.imms|, k requires 0 <= k < |r.imms| && WellFormed(nodes) && InDatabase(nodes, r) => ReadImm(read, nodes, r.imms[k]))
  }

  lemma {:induction false} RefsThenValues(rec: K.Record, n: nat)
    requires n <= |rec| && (forall k: nat | k < n :: rec[k].Ref?) && forall k: nat | n <= k < |rec| :: rec[k].Imm?
    ensures |K.Items(rec)| == |rec| - n && forall k: nat | k < |rec| - n :: K.Items(rec)[k] == rec[n + k].item
    decreases |rec|
  {
    if |rec| > 0 {
      var rest := rec[1..];
      RefsThenValues(rest, if n > 0 then n - 1 else 0);
      if n > 0 {
        assert K.Items(rec) == K.Items(rest);
        forall k: nat | k < |rec| - n ensures K.Items(rec)[k] == rec[n + k].item { assert rest[n - 1 + k] == rec[n + k]; }
      } else {
        assert K.Items(rec) == [rec[0].item] + K.Items(rest);
      }
    }
  }

  /** The values of a record are those of its immediates, in order. */
  lemma ItemsOf(read: Reading, nodes: Nodes, r: Rec)
    requires WellFormed(nodes) && InDatabase(nodes, r)
    ensures |K.Items(RecordOf(read, nodes, r))| == |r.imms|
    ensures forall k: nat | k < |r.imms| :: K.Imm(K.Items(RecordOf(read, nodes, r))[k]) == ReadImm(read, nodes, r.imms[k])
  {
    hide WellFormed, MeaningOf, PathOf, RecordOf, K.Items;
    var rec := RecordOf(read, nodes, r);
    forall k: nat | |r.ids| <= k < |rec| ensures rec[k].Imm? { assert rec[|r.ids| + (k - |r.ids|)] == ReadImm(read, nodes, r.imms[k - |r.ids|]); }
    RefsThenValues(rec, |r.ids|);
  }

  // ----- Translating a record -----

  function TranslateImm(i: Imm, idmap: IdMap): Imm {
    Imm(MapId(i.attr, idmap), i.value)
  }

  function Translate(r: Rec, idmap: IdMap): (t: Rec)
    ensures |t.ids| == |r.ids| && forall k: nat | k < |r.ids| :: t.ids[k] == MapId(r.ids[k], idmap)
    ensures |t.imms| == |r.imms| && forall k: nat | k < |r.imms| :: t.imms[k] == TranslateImm(r.imms[k], idmap)
  {
    Rec(seq(|r.ids|, k requires 0 <= k < |r.ids| => MapId(r.ids[k], idmap)),
        seq(|r.imms|, k requires 0 <= k < |r.imms| => TranslateImm(r.imms[k], idmap)))
  }

  /** The two loops that build the receiver's record. */
  method MergeSnapshot(r: Rec, idmap: IdMap) returns (t: Rec)
    ensures t == Translate(r, idmap)
  {
    var ids: seq<nat>, imms: seq<Imm> := [], [];
    for k := 0 to |r.ids|
      invariant |ids| == k && forall j: nat | j < k :: ids[j] == MapId(r.ids[j], idmap)
    {
      ids := ids + [MapId(r.ids[k], idmap)];
    }
    for k := 0 to |r.imms|
      invariant |imms| == k && forall j: nat | j < k :: imms[j] == TranslateImm(r.imms[j], idmap)
    {
      imms := imms + [Imm(MapId(r.imms[k].attr, idmap), r.imms[k].value)];
    }
    t := Rec(ids, imms);
  }

  ghost predicate AllAgreed(from: Nodes, to: Nodes, idmap: IdMap, r: Rec)
    requires WellFormed(from) && WellFormed(to)
  {
    && (forall k: nat | k < |r.ids| :: Agrees(from, to, idmap, r.ids[k]))
    && (forall k: nat | k < |r.imms| :: Agrees(from, to, idmap, r.imms[k].attr))
  }

  /** A translated record means in the receiver what the record means in the sender. */
  lemma TranslateKeeps(read: Reading, from: Nodes, to: Nodes, idmap: IdMap, r: Rec)
    requires WellFormed(from) && WellFormed(to) && AllAgreed(from, to, idmap, r)
    ensures InDatabase(from, r) && InDatabase(to, Translate(r, idmap))
    ensures RecordOf(read, to, Translate(r, idmap)) == RecordOf(read, from, r)
  {
    hide WellFormed, ReadRef, ReadImm, RecordOf, Translate, TranslateImm, Agrees;
    var t := Translate(r, idmap);
    forall k: nat | k < |r.ids|
      ensures r.ids[k] < |from| && t.ids[k] < |to| && ReadRef(read, to, t.ids[k]) == ReadRef(read, from, r.ids[k])
    {
      RefKept(read, from, to, idmap, r.ids[k]);
    }
    forall k: nat | k < |r.imms|
      ensures r.imms[k].attr < |from| && t.imms[k].attr < |to| && ReadImm(read, to, t.imms[k]) == ReadImm(read, from, r.imms[k])
    {
      ImmKept(read, from, to, idmap, r.imms[k]);
    }
    SameEntries(read, from, to, r, t);
  }

  lemma RefKept(read: Reading, from: Nodes, to: Nodes, idmap: IdMap, id: nat)
    requires WellFormed(from) && WellFormed(to) && Agrees(from, to, idmap, id)
    ensures id < |from| && MapId(id, idmap) < |to| && ReadRef(read, to, MapId(id, idmap)) == ReadRef(read, from, id)
  {
    hide WellFormed, PathOf, MeaningOf;
  }

  lemma ImmKept(read: Reading, from: Nodes, to: Nodes, idmap: IdMap, i: Imm)
    requires WellFormed(from) && WellFormed(to) && Agrees(from, to, idmap, i.attr)
    ensures i.attr < |from| && TranslateImm(i, idmap).attr < |to|
    ensures ReadImm(read, to, TranslateImm(i, idmap)) == ReadImm(read, from, i)
  {
    hide WellFormed, MeaningOf;
  }

  lemma SameEntries(read: Reading, from: Nodes, to: Nodes, r: Rec, t: Rec)
    requires WellFormed(from) && WellFormed(to) && InDatabase(from, r) && InDatabase(to, t)
    requires |t.ids| == |r.ids| && forall k: nat | k < |r.ids| :: ReadRef(read, to, t.ids[k]) == ReadRef(read, from, r.ids[k])
    requires |t.imms| == |r.imms| && forall k: nat | k < |r.imms| :: ReadImm(read, to, t.imms[k]) == ReadImm(read, from, r.imms[k])
    ensures RecordOf(read, to, t) == RecordOf(read, from, r)
  {
    hide WellFormed, ReadRef, ReadImm, RecordOf;
    var a, b := RecordOf(read, to, t), RecordOf(read, from, r);
    forall j: nat | j < |a| ensures a[j] == b[j] {
      if j < |r.ids| {
        assert a[j] == ReadRef(read, to, t.ids[j]);
      } else {
        assert a[|t.ids| + (j - |t.ids|)] == ReadImm(read, to, t.imms[j - |t.ids|]);
        assert b[|r.ids| + (j - |r.ids|)] == ReadImm(read, from, r.imms[j - |r.ids|]);
      }
    }
  }

  // ----- What arrives was sent -----

  ghost predicate Within(ids: seq<nat>, all: seq<nat>) {
    forall x | x in ids :: x in all
  }

  ghost predicate ImmsWithin(imms: seq<Imm>, all: seq<Imm>) {
    forall x | x in imms :: x in all
  }

  ghost predicate PackedFrom(s: Packing, list: seq<WireEntry>) {
    && Within(s.rec.ids, Refs(list)) && Within(s.nodes, Refs(list))
    && ImmsWithin(s.rec.imms, Values(list)) && ImmsWithin(s.values, Values(list))
  }

  lemma {:induction false} PackListFrom(list: seq<WireEntry>, size: nat)
    ensures PackedFrom(PackList(NO_RECORD, list, size), list)
  {
    hide FitsIn, Refs, Values;
    if list != [] {
      var n := |list| - 1;
      PackListFrom(list[..n], size);
      EntrySnoc(list, n);
      assert list[..n + 1] == list;
    }
  }

  /** Only entries of the list arrive. */
  lemma ArrivingFrom(list: seq<WireEntry>)
    ensures Within(Arriving(list).ids, Refs(list)) && ImmsWithin(Arriving(list).imms, Values(list))
  {
    hide FitsIn, Refs, Values, PackList;
    PackListFrom(list, INTERNAL_BUFFER);
  }

  // ----- The hop -----

  function AttrsOf(imms: seq<Imm>): (r: seq<nat>)
    ensures |r| == |imms| && forall k: nat | k < |r| :: r[k] == imms[k].attr
  {
    seq(|imms|, k requires 0 <= k < |imms| => imms[k].attr)
  }

  /** The nodes and attributes of a list are nodes of the database. */
  ghost predicate ListIn(nodes: Nodes, list: seq<WireEntry>) {
    && (forall e | e in list :: e.Valid()) && |Refs(list)| <= BLOCK && InDatabase(nodes, WholeRecord(list))
  }

  /** All ids a list mentions are among those to send. */
  ghost predicate Covered(list: seq<WireEntry>, wanted: seq<nat>) {
    Within(Refs(list), wanted) && Within(AttrsOf(Values(list)), wanted)
  }

  method Wanted(from: Nodes, lists: seq<seq<WireEntry>>) returns (wanted: seq<nat>)
    requires forall i: nat | i < |lists| :: ListIn(from, lists[i])
    ensures forall i: nat | i < |lists| :: Covered(lists[i], wanted)
    ensures forall k: nat | k < |wanted| :: wanted[k] < |from|
  {
    hide Refs, Values;
    wanted := [];
    for i := 0 to |lists|
      invariant forall j: nat | j < i :: Covered(lists[j], wanted)
      invariant forall k: nat | k < |wanted| :: wanted[k] < |from|
    {
      assert ListIn(from, lists[i]);
      ghost var was := wanted;
      wanted := wanted + (Refs(lists[i]) + AttrsOf(Values(lists[i])));
      forall j: nat | j < i ensures Covered(lists[j], wanted) { assert Covered(lists[j], was); }
    }
  }

  lemma ArrivingAgrees(from: Nodes, to: Nodes, idmap: IdMap, list: seq<WireEntry>, wanted: seq<nat>)
    requires WellFormed(from) && WellFormed(to) && Covered(list, wanted)
    requires forall k: nat | k < |wanted| :: Agrees(from, to, idmap, wanted[k])
    ensures AllAgreed(from, to, idmap, Arriving(list)) && AllAgreed(from, to, idmap, WholeRecord(list))
  {
    hide Agrees, Refs, Values, Arriving, WellFormed;
    ArrivingFrom(list);
    forall x | x in wanted ensures Agrees(from, to, idmap, x) {
      var k: nat :| k < |wanted| && wanted[k] == x;
    }
    forall x | x in Refs(list) ensures Agrees(from, to, idmap, x) {}
    forall x | x in Values(list) ensures Agrees(from, to, idmap, x.attr) {
      var k: nat :| k < |Values(list)| && Values(list)[k] == x;
      assert AttrsOf(Values(list))[k] in AttrsOf(Values(list));
    }
    var r := Arriving(list);
    forall k: nat | k < |r.ids| ensures Agrees(from, to, idmap, r.ids[k]) { assert r.ids[k] in r.ids; }
    forall k: nat | k < |r.imms| ensures Agrees(from, to, idmap, r.imms[k].attr) { assert r.imms[k] in r.imms; }
  }

  /** Records and nodes are packed, sent, merged and translated: what arrives of each record means the
      same in the receiver, the receiver's nodes are kept, and every record arrives whole exactly if all
      of them fit. */
  method Hop(from: Nodes, lists: seq<seq<WireEntry>>, to: MetadataDB, ghost read: Reading)
    returns (recs: seq<Rec>, dropped: nat, ghost idmap: IdMap)
    requires WellFormed(from) && to.Valid() && |to.nodes| + |from| <= U64 / 2
    requires forall i: nat | i < |lists| :: ListIn(from, lists[i])
    modifies to
    ensures to.Valid() && old(to.nodes) <= to.nodes && WellFormed(to.nodes) && |recs| == |lists|
    ensures forall i: nat | i < |lists| :: recs[i] == Translate(Arriving(lists[i]), idmap)
    ensures forall i: nat | i < |lists| :: SameMeaning(read, from, Arriving(lists[i]), to.nodes, recs[i])
    ensures dropped == 0 <==> forall i: nat | i < |lists| :: FitsWire(lists[i])
    ensures forall i: nat | i < |lists| && FitsWire(lists[i]) :: SameMeaning(read, from, WholeRecord(lists[i]), to.nodes, recs[i])
  {
    hide Refs, Values, Arriving, FitsWire, WellFormed, Agrees, WholeRecord, Covered, SameMeaning;
    var wanted := Wanted(from, lists);
    var map0 := Transfer(from, wanted, to);
    idmap := map0;
    DatabaseOk(to);
    ghost var nodes := to.nodes;
    forall l | l in lists ensures (forall e | e in l :: e.Valid()) && |Refs(l)| <= BLOCK {
      var i: nat :| i < |lists| && lists[i] == l;
      assert ListIn(from, lists[i]);
    }
    var sent: seq<Rec>;
    sent, dropped := SendAndReceive(lists);
    recs := [];
    for i := 0 to |lists|
      invariant to.Valid() && to.nodes == nodes
      invariant |recs| == i && forall j: nat | j < i :: recs[j] == Translate(Arriving(lists[j]), idmap)
      invariant forall j: nat | j < i :: SameMeaning(read, from, Arriving(lists[j]), nodes, recs[j])
    {
      var r := MergeSnapshot(sent[i], map0);
      Arrived(read, from, nodes, idmap, lists[i], wanted);
      recs := recs + [r];
    }
    forall i: nat | i < |lists| && FitsWire(lists[i])
      ensures SameMeaning(read, from, WholeRecord(lists[i]), to.nodes, recs[i])
    {
      ArrivesWholeIff(lists[i]);
    }
  }

  lemma Arrived(read: Reading, from: Nodes, to: Nodes, idmap: IdMap, list: seq<WireEntry>, wanted: seq<nat>)
    requires WellFormed(from) && WellFormed(to) && Covered(list, wanted)
    requires forall k: nat | k < |wanted| :: Agrees(from, to, idmap, wanted[k])
    ensures SameMeaning(read, from, Arriving(list), to, Translate(Arriving(list), idmap))
  {
    hide WellFormed, Agrees, Arriving, Covered;
    ArrivingAgrees(from, to, idmap, list, wanted);
    TranslateKeeps(read, from, to, idmap, Arriving(list));
  }

  ghost predicate SameMeaning(read: Reading, from: Nodes, r: Rec, to: Nodes, t: Rec)
    requires WellFormed(from) && WellFormed(to)
  {
    && InDatabase(from, r) && InDatabase(to, t) && RecordOf(read, to, t) == RecordOf(read, from, r)
  }

  lemma DatabaseOk(db: MetadataDB)
    requires db.Valid()
    ensures WellFormed(db.nodes)
  {
  }
}
