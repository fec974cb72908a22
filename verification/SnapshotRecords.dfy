/** Compressed snapshot records: a count byte and the ids of the referenced nodes, then a count byte
    and the immediate attribute:value pairs, all as variable-length integers. */
module SnapshotRecords {
  import opened Common
  import opened Vlenc

  const BLOCK: nat := 4
  const INTERNAL_BUFFER: nat := 512
  const MAX_TYPE: nat := 9

  // A variant on the wire: its type-and-size word and its 64-bit value.
  datatype WireVariant = WireVariant(typeAndSize: nat, bits: nat) {
    predicate Valid() {
      typeAndSize < U64 && bits < U64 && typeAndSize % 256 <= MAX_TYPE
    }
  }

  datatype Imm = Imm(attr: nat, value: WireVariant) {
    predicate Valid() { attr < U64 && value.Valid() }
  }

  datatype WireEntry = NoWireEntry | Ref(id: nat) | Value(imm: Imm) {
    predicate Valid() {
      match this
      case NoWireEntry => true
      case Ref(id) => id < U64
      case Value(i) => i.Valid()
    }
  }

  // --- Wire format

  function PackVariant(v: WireVariant): seq<Byte> {
    Encode(v.typeAndSize) + Encode(v.bits)
  }

  function EncodeIds(ids: seq<nat>): seq<Byte> {
    if ids == [] then [] else Encode(ids[0]) + EncodeIds(ids[1..])
  }

  function EncodeImm(i: Imm): seq<Byte> {
    Encode(i.attr) + PackVariant(i.value)
  }

  function EncodeImms(imms: seq<Imm>): seq<Byte> {
    if imms == [] then [] else EncodeImm(imms[0]) + EncodeImms(imms[1..])
  }

  function RecordBytes(ids: seq<nat>, imms: seq<Imm>): (r: seq<Byte>)
    requires |ids| < 128 && |imms| < 128
    ensures |r| >= 2
  {
    [|ids|] + EncodeIds(ids) + ([|imms|] + EncodeImms(imms))
  }

  // --- Reading it back

  /** Value and length of the variant at the front of s; a bad type reads as nothing and consumes nothing. */
  function UnpackVariant(s: seq<Byte>): (WireVariant, nat) {
    var (ts, n) := Decode(s, 0);
    if ts % 256 > MAX_TYPE || n > |s| then (WireVariant(0, 0), 0)
    else
      var (bits, m) := Decode(s[n..], 0);
      (WireVariant(ts, bits), n + m)
  }

  function DecodeIds(s: seq<Byte>, n: nat): (seq<nat>, nat)
    decreases n
  {
    if n == 0 then ([], 0)
    else
      var (id, len) := Decode(s, 0);
      if len > |s| then ([], 0)
      else
        var rest := DecodeIds(s[len..], n - 1);
        ([id] + rest.0, len + rest.1)
  }

  function DecodeImm(s: seq<Byte>): (Imm, nat) {
    var (attr, len) := Decode(s, 0);
    if len > |s| then (Imm(0, WireVariant(0, 0)), 0)
    else
      var (v, m) := UnpackVariant(s[len..]);
      (Imm(attr, v), len + m)
  }

  function DecodeImms(s: seq<Byte>, n: nat): (seq<Imm>, nat)
    decreases n
  {
    hide DecodeImm;
    if n == 0 then ([], 0)
    else
      var d := DecodeImm(s);
      if d.1 > |s| then ([], 0)
      else
        var rest := DecodeImms(s[d.1..], n - 1);
        ([d.0] + rest.0, d.1 + rest.1)
  }

  lemma {:induction false} IdsRoundTrip(ids: seq<nat>, rest: seq<Byte>)
    requires forall i: nat | i < |ids| :: ids[i] < U64
    ensures DecodeIds(EncodeIds(ids) + rest, |ids|) == (ids, |EncodeIds(ids)|)
  {
    hide Encode, Decode;
    if ids != [] {
      var tail := EncodeIds(ids[1..]) + rest;
      assert EncodeIds(ids) + rest == Encode(ids[0]) + tail;
      RoundTripU64(ids[0], tail);
      assert (Encode(ids[0]) + tail)[|Encode(ids[0])|..] == tail;
      IdsRoundTrip(ids[1..], rest);
      assert ids == [ids[0]] + ids[1..];
    }
  }

  lemma VariantRoundTrip(v: WireVariant, rest: seq<Byte>)
    requires v.Valid()
    ensures UnpackVariant(PackVariant(v) + rest) == (v, |PackVariant(v)|)
  {
    hide Encode, Decode;
    var tail := Encode(v.bits) + rest;
    assert PackVariant(v) + rest == Encode(v.typeAndSize) + tail;
    RoundTripU64(v.typeAndSize, tail);
    assert (Encode(v.typeAndSize) + tail)[|Encode(v.typeAndSize)|..] == tail;
    RoundTripU64(v.bits, rest);
  }

  lemma ImmRoundTrip(i: Imm, rest: seq<Byte>)
    requires i.Valid()
    ensures DecodeImm(EncodeImm(i) + rest) == (i, |EncodeImm(i)|)
    ensures |EncodeImm(i)| <= 30
  {
    hide Encode, Decode, UnpackVariant;
    var tail := PackVariant(i.value) + rest;
    assert EncodeImm(i) + rest == Encode(i.attr) + tail;
    RoundTripU64(i.attr, tail);
    RoundTripU64(i.value.typeAndSize, []);
    RoundTripU64(i.value.bits, []);
    assert (Encode(i.attr) + tail)[|Encode(i.attr)|..] == tail;
    VariantRoundTrip(i.value, rest);
  }

  lemma {:induction false} ImmsRoundTrip(imms: seq<Imm>, rest: seq<Byte>)
    requires forall i: nat | i < |imms| :: imms[i].Valid()
    ensures DecodeImms(EncodeImms(imms) + rest, |imms|) == (imms, |EncodeImms(imms)|)
  {
    hide EncodeImm, DecodeImm, DecodeImms;
    DecodeImmsHead(EncodeImms(imms) + rest, |imms|);
    if imms != [] {
      var tail := EncodeImms(imms[1..]) + rest;
      assert EncodeImms(imms) + rest == EncodeImm(imms[0]) + tail;
      ImmRoundTrip(imms[0], tail);
      assert (EncodeImm(imms[0]) + tail)[|EncodeImm(imms[0])|..] == tail;
      ImmsRoundTrip(imms[1..], rest);
      assert imms == [imms[0]] + imms[1..];
    }
  }

  lemma DecodeImmsHead(s: seq<Byte>, n: nat)
    ensures n == 0 ==> DecodeImms(s, n) == ([], 0)
    ensures n > 0 && DecodeImm(s).1 <= |s| ==>
              var d, rest := DecodeImm(s), DecodeImms(s[DecodeImm(s).1..], n - 1);
              DecodeImms(s, n) == ([d.0] + rest.0, d.1 + rest.1)
  {
    hide DecodeImm;
  }

  lemma {:induction false} EncodeIdsAppend(a: seq<nat>, b: seq<nat>)
    ensures EncodeIds(a + b) == EncodeIds(a) + EncodeIds(b)
  {
    if a == [] {
      assert a + b == b;
    } else {
      assert (a + b)[1..] == a[1..] + b;
      EncodeIdsAppend(a[1..], b);
    }
  }

  lemma {:induction false} EncodeImmsAppend(a: seq<Imm>, b: seq<Imm>)
    ensures EncodeImms(a + b) == EncodeImms(a) + EncodeImms(b)
  {
    if a == [] {
      assert a + b == b;
    } else {
      assert (a + b)[1..] == a[1..] + b;
      EncodeImmsAppend(a[1..], b);
    }
  }

  /** What the record view makes of the bytes at the front of s: node ids, immediates, total length. */
  function ParseRecord(s: seq<Byte>): (seq<nat>, seq<Imm>, nat)
  {
    if s == [] then ([], [], 0)
    else
      var (ids, n) := DecodeIds(s[1..], s[0]);
      if 1 + n >= |s| then (ids, [], 0)
      else
        var (imms, m) := DecodeImms(s[n + 2..], s[n + 1]);
        (ids, imms, n + m + 2)
  }

  /** A well-formed record reads back as its node ids and its immediates, whatever follows it. */
  lemma RecordRoundTrip(ids: seq<nat>, imms: seq<Imm>, rest: seq<Byte>)
    requires |ids| < 128 && |imms| < 128
    requires (forall i: nat | i < |ids| :: ids[i] < U64) && forall i: nat | i < |imms| :: imms[i].Valid()
    ensures ParseRecord(RecordBytes(ids, imms) + rest) == (ids, imms, |RecordBytes(ids, imms)|)
  {
    hide EncodeIds, DecodeIds, EncodeImms, DecodeImms;
    var s := RecordBytes(ids, imms) + rest;
    var tail := [|imms|] + EncodeImms(imms) + rest;
    assert s[1..] == EncodeIds(ids) + tail;
    IdsRoundTrip(ids, tail);
    var n := |EncodeIds(ids)|;
    assert s[n + 1] == |imms|;
    assert s[n + 2..] == EncodeImms(imms) + rest;
    ImmsRoundTrip(imms, rest);
  }

  // --- Streams of records

  datatype Rec = Rec(ids: seq<nat>, imms: seq<Imm>) {
    predicate Valid() {
      && |ids| < 128 && |imms| < 128
      && (forall i: nat | i < |ids| :: ids[i] < U64) && forall i: nat | i < |imms| :: imms[i].Valid()
    }

    function Bytes(): seq<Byte>
      requires Valid()
    {
      RecordBytes(ids, imms)
    }
  }

  function StreamBytes(recs: seq<Rec>): seq<Byte>
    requires forall r | r in recs :: r.Valid()
  {
    if recs == [] then [] else recs[0].Bytes() + StreamBytes(recs[1..])
  }

  function ParseStream(s: seq<Byte>, n: nat): seq<Rec>
    decreases n
  {
    if n == 0 || s == [] then []
    else
      var (ids, imms, len) := ParseRecord(s);
      if len > |s| then [Rec(ids, imms)]
      else [Rec(ids, imms)] + ParseStream(s[len..], n - 1)
  }

  /** Reading a concatenation of records returns each of them, in order. */
  lemma {:induction false} StreamRoundTrip(recs: seq<Rec>)
    requires forall r | r in recs :: r.Valid()
    ensures ParseStream(StreamBytes(recs), |recs|) == recs
  {
    hide RecordBytes, ParseRecord;
    if recs != [] {
      assert recs[0] in recs && recs == [recs[0]] + recs[1..];
      var tail := StreamBytes(recs[1..]);
      RecordRoundTrip(recs[0].ids, recs[0].imms, tail);
      assert (recs[0].Bytes() + tail)[|recs[0].Bytes()|..] == tail;
      StreamRoundTrip(recs[1..]);
    }
  }

  // --- The encoder

  /** Copies len bytes of src from spos to dst at dpos; the arrays are different. */
  method Memcpy(dst: array<Byte>, dpos: nat, src: array<Byte>, spos: nat, len: nat)
    requires dst != src && dpos + len <= dst.Length && spos + len <= src.Length
    modifies dst
    ensures dst[..] == Overwrite(old(dst[..]), dpos, src[spos..spos + len])
  {
    hide Overwrite;
    ghost var s := dst[..];
    OverwriteNone(s, dpos);
    assert src[spos..spos] == [];
    for i := 0 to len
      invariant dst[..] == Overwrite(s, dpos, src[spos..spos + i])
    {
      assert src[spos..spos + i + 1] == src[spos..spos + i] + [src[spos + i]];
      OverwriteNext(s, dpos, src[spos..spos + i], src[spos + i]);
      Store(dst, dpos + i, src[spos + i]);
    }
  }

  lemma OverwriteFront(s: seq<Byte>, pos: nat, a: seq<Byte>, b: seq<Byte>)
    requires pos + |a| + |b| <= |s|
    ensures Overwrite(Overwrite(s, pos + |a|, b), pos, a) == Overwrite(s, pos, a + b)
  {}

  lemma OverwriteOutside(s: seq<Byte>, pos: nat, a: seq<Byte>, lo: nat, hi: nat)
    requires pos + |a| <= |s| && lo <= hi <= |s| && (hi <= pos || pos + |a| <= lo)
    ensures Overwrite(s, pos, a)[lo..hi] == s[lo..hi]
  {}

  lemma OverwriteAt(s: seq<Byte>, pos: nat, a: seq<Byte>, i: nat)
    requires pos + |a| <= |s| && i < |s|
    ensures Overwrite(s, pos, a)[i] == if pos <= i < pos + |a| then a[i - pos] else s[i]
  {}

  lemma OverwriteInside(s: seq<Byte>, pos: nat, a: seq<Byte>)
    requires pos + |a| <= |s|
    ensures Overwrite(s, pos, a)[pos..pos + |a|] == a
  {}

  /** Moves len bytes from src up to dst within buf, in blocks of 64 from the end; the ranges may overlap. */
  method SaveMemmove(buf: array<Byte>, dst: nat, src: nat, len: nat)
    requires src <= dst && dst + len <= buf.Length
    modifies buf
    ensures buf[..] == Overwrite(old(buf[..]), dst, old(buf[src..src + len]))
  {
    hide Overwrite;
    ghost var s, moved := buf[..], buf[src..src + len];
    if src == dst {
      SelfOverwrite(s, dst, len);
      return;
    }
    var n := len;
    var tmp := new Byte[64];
    OverwriteNone(s, dst + len);
    assert moved[len..] == [];
    while n > 0
      invariant 0 <= n <= len
      invariant buf[..] == Overwrite(s, dst + n, moved[n..])
    {
      var blk := if n < 64 then n else 64;
      ghost var m := n;
      n := n - blk;
      BlockMoved(s, dst, src, len, n, m);
      ghost var t := tmp[..];
      Memcpy(tmp, 0, buf, src + n, blk);
      OverwriteInside(t, 0, moved[n..m]);
      Memcpy(buf, dst + n, tmp, 0, blk);
    }
    assert moved[0..] == moved;
  }

  // Moving the bytes from n to m after those behind them.
  lemma BlockMoved(s: seq<Byte>, dst: nat, src: nat, len: nat, n: nat, m: nat)
    requires src <= dst && dst + len <= |s| && n <= m <= len
    ensures var moved := s[src..src + len];
            && Overwrite(s, dst + m, moved[m..])[src + n..src + m] == moved[n..m]
            && Overwrite(Overwrite(s, dst + m, moved[m..]), dst + n, moved[n..m]) == Overwrite(s, dst + n, moved[n..])
  {
    hide Overwrite;
    var moved := s[src..src + len];
    OverwriteOutside(s, dst + m, moved[m..], src + n, src + m);
    SliceOfSlice(s, src, len, n, m);
    MovedBehind(s, dst, moved, n, m);
  }

  lemma MovedBehind(s: seq<Byte>, dst: nat, moved: seq<Byte>, n: nat, m: nat)
    requires dst + |moved| <= |s| && n <= m <= |moved|
    ensures Overwrite(Overwrite(s, dst + m, moved[m..]), dst + n, moved[n..m]) == Overwrite(s, dst + n, moved[n..])
  {
    hide Overwrite;
    OverwriteFront(s, dst + n, moved[n..m], moved[m..]);
    assert moved[n..m] + moved[m..] == moved[n..];
  }

  lemma SliceOfSlice(s: seq<Byte>, src: nat, len: nat, n: nat, m: nat)
    requires src + len <= |s| && n <= m <= len
    ensures s[src..src + len][n..m] == s[src + n..src + m]
  {
    var a, b := s[src..src + len][n..m], s[src + n..src + m];
    assert |a| == |b|;
    forall i: nat | i < |a| ensures a[i] == b[i] {
      assert a[i] == s[src..src + len][n + i] == s[src + (n + i)];
    }
  }

  lemma SelfOverwrite(s: seq<Byte>, pos: nat, len: nat)
    requires pos + len <= |s|
    ensures Overwrite(s, pos, s[pos..pos + len]) == s
  {}

  /** The buffer holds the counts and the immediates; the node ids too, as long as at most one
      block of them has been copied in. */
  ghost predicate Holds(buf: seq<Byte>, ids: seq<nat>, imms: seq<Imm>, immPos: nat, immLen: nat, blocks: nat) {
    && |ids| < 128 && |imms| < 128
    && immPos == 1 + |EncodeIds(ids)| && immLen == 1 + |EncodeImms(imms)| && immPos + immLen <= |buf|
    && buf[0] == |ids|
    && buf[immPos..immPos + immLen] == [|imms|] + EncodeImms(imms)
    && (blocks <= 1 ==> buf[1..immPos] == EncodeIds(ids))
    && (blocks == 0 ==> ids == [])
  }

  lemma HoldsRecord(buf: seq<Byte>, ids: seq<nat>, imms: seq<Imm>, immPos: nat, immLen: nat, blocks: nat)
    requires Holds(buf, ids, imms, immPos, immLen, blocks) && blocks <= 1
    ensures buf[..immPos + immLen] == RecordBytes(ids, imms)
  {
    assert buf[..immPos + immLen] == [buf[0]] + buf[1..immPos] + buf[immPos..immPos + immLen];
  }

  /** The buffer after a block of node ids was copied to its front, the immediates having moved up. */
  function NodeBlockCopy(buf: seq<Byte>, immPos: nat, immLen: nat, block: seq<nat>, total: Byte): (r: seq<Byte>)
    requires |buf| > 0 && immPos >= 1 && immPos + immLen + |EncodeIds(block)| <= |buf|
    ensures |r| == |buf|
  {
    var len := |EncodeIds(block)|;
    Overwrite(Overwrite(buf, immPos + len, buf[immPos..immPos + immLen]), 1, EncodeIds(block))[0 := total]
  }

  function BlockSize(ids: seq<nat>): nat {
    if |ids| < BLOCK then |ids| else BLOCK
  }

  /** Every block of the ids fits when appended to a record with `done` ids already in it. */
  predicate NodesFit(immPos: nat, immLen: nat, done: nat, ids: seq<nat>, size: nat)
    decreases |ids|
  {
    && immPos >= 1 && done + |ids| < 128 && immPos + immLen + |EncodeIds(ids)| <= size && size > 0
    && (ids != [] ==>
          var blk := BlockSize(ids);
          && immPos + immLen + |EncodeIds(ids[..blk])| <= size
          && NodesFit(immPos + |EncodeIds(ids[..blk])|, immLen, done + blk, ids[blk..], size))
  }

  /** The buffer after appending node ids in blocks of four. */
  function NodesCopied(buf: seq<Byte>, immPos: nat, immLen: nat, done: nat, ids: seq<nat>): (r: seq<Byte>)
    requires NodesFit(immPos, immLen, done, ids, |buf|)
    ensures |r| == |buf|
    decreases |ids|
  {
    if ids == [] then buf
    else
      var blk := BlockSize(ids);
      NodesCopied(NodeBlockCopy(buf, immPos, immLen, ids[..blk], done + blk),
                  immPos + |EncodeIds(ids[..blk])|, immLen, done + blk, ids[blk..])
  }

  lemma NextBlock(vec: seq<nat>, p: nat, blk: nat)
    requires p + blk <= |vec| && AllU64(vec)
    ensures AllU64(vec[p..p + blk]) && vec[..p + blk] == vec[..p] + vec[p..p + blk]
    ensures |EncodeIds(vec[..p + blk])| == |EncodeIds(vec[..p])| + |EncodeIds(vec[p..p + blk])|
  {
    hide EncodeIds;
    assert vec[..p + blk] == vec[..p] + vec[p..p + blk];
    EncodeIdsAppend(vec[..p], vec[p..p + blk]);
  }

  lemma NodesStep(buf: seq<Byte>, immPos: nat, immLen: nat, done: nat, vec: seq<nat>, p: nat)
    requires p < |vec| && NodesFit(immPos, immLen, done, vec[p..], |buf|)
    ensures var blk := if |vec| - p < BLOCK then |vec| - p else BLOCK;
            var len := |EncodeIds(vec[p..p + blk])|;
            && done + blk < 128 && immPos >= 1 && immPos + immLen + len <= |buf|
            && NodesFit(immPos + len, immLen, done + blk, vec[p + blk..], |buf|)
            && NodesCopied(buf, immPos, immLen, done, vec[p..])
               == NodesCopied(NodeBlockCopy(buf, immPos, immLen, vec[p..p + blk], done + blk),
                              immPos + len, immLen, done + blk, vec[p + blk..])
  {
    hide EncodeIds, NodeBlockCopy;
    var blk := BlockSize(vec[p..]);
    assert vec[p..][..blk] == vec[p..p + blk];
    assert vec[p..][blk..] == vec[p + blk..];
  }

  /** Appending the remaining ids makes the target. */
  ghost predicate CopyLeft(buf: seq<Byte>, immPos: nat, immLen: nat, done: nat, rest: seq<nat>, target: seq<Byte>) {
    NodesFit(immPos, immLen, done, rest, |buf|) && NodesCopied(buf, immPos, immLen, done, rest) == target
  }

  lemma CopyStarts(buf: seq<Byte>, immPos: nat, immLen: nat, done: nat, vec: seq<nat>)
    requires NodesFit(immPos, immLen, done, vec, |buf|)
    ensures CopyLeft(buf, immPos, immLen, done, vec, NodesCopied(buf, immPos, immLen, done, vec))
  {
    hide NodesFit, NodesCopied;
  }

  lemma CopyStep(buf: seq<Byte>, immPos: nat, immLen: nat, done: nat, vec: seq<nat>, p: nat, target: seq<Byte>)
    requires p < |vec| && CopyLeft(buf, immPos, immLen, done, vec[p..], target)
    ensures var blk := if |vec| - p < BLOCK then |vec| - p else BLOCK;
            var len := |EncodeIds(vec[p..p + blk])|;
            && done + blk < 128 && immPos >= 1 && immPos + immLen + len <= |buf|
            && CopyLeft(NodeBlockCopy(buf, immPos, immLen, vec[p..p + blk], done + blk), immPos + len, immLen, done + blk,
                        vec[p + blk..], target)
  {
    hide NodesFit, NodesCopied, NodeBlockCopy, EncodeIds;
    NodesStep(buf, immPos, immLen, done, vec, p);
  }

  lemma CopyEnd(buf: seq<Byte>, immPos: nat, immLen: nat, done: nat, ids: seq<nat>, target: seq<Byte>)
    requires ids == [] && CopyLeft(buf, immPos, immLen, done, ids, target)
    ensures buf == target
  {
    hide NodesFit, NodesCopied;
    NodesEnd(buf, immPos, immLen, done, ids);
  }

  lemma NodesEnd(buf: seq<Byte>, immPos: nat, immLen: nat, done: nat, ids: seq<nat>)
    requires ids == [] && NodesFit(immPos, immLen, done, ids, |buf|)
    ensures NodesCopied(buf, immPos, immLen, done, ids) == buf
  {}

  lemma NodeBlockCopied(buf: seq<Byte>, ids: seq<nat>, imms: seq<Imm>, immPos: nat, immLen: nat, blocks: nat, block: seq<nat>)
    requires Holds(buf, ids, imms, immPos, immLen, blocks) && |ids| + |block| < 128
    requires immPos + immLen + |EncodeIds(block)| <= |buf|
    ensures Holds(NodeBlockCopy(buf, immPos, immLen, block, |ids| + |block|), ids + block, imms,
                  immPos + |EncodeIds(block)|, immLen, blocks + 1)
  {
    hide EncodeIds, EncodeImms, NodeBlockCopy;
    CopyLayout(buf, immPos, immLen, block, |ids| + |block|);
    EncodeIdsAppend(ids, block);
    EncodeNone();
  }

  lemma CopyLayout(buf: seq<Byte>, immPos: nat, immLen: nat, block: seq<nat>, total: Byte)
    requires |buf| > 0 && immPos >= 1 && immPos + immLen + |EncodeIds(block)| <= |buf|
    ensures var r, len := NodeBlockCopy(buf, immPos, immLen, block, total), |EncodeIds(block)|;
            && r[0] == total && r[1..1 + len] == EncodeIds(block)
            && r[immPos + len..immPos + len + immLen] == buf[immPos..immPos + immLen]
  {
    hide EncodeIds, Overwrite;
    var enc := EncodeIds(block);
    var len := |enc|;
    var immBytes := buf[immPos..immPos + immLen];
    var moved := Overwrite(buf, immPos + len, immBytes);
    var done := Overwrite(moved, 1, enc);
    OverwriteInside(buf, immPos + len, immBytes);
    OverwriteOutside(moved, 1, enc, immPos + len, immPos + len + immLen);
    OverwriteInside(moved, 1, enc);
    var r := done[0 := total];
    assert r[immPos + len..immPos + len + immLen] == done[immPos + len..immPos + len + immLen];
    assert r[1..1 + len] == done[1..1 + len];
  }

  lemma EncodeNone()
    ensures EncodeIds([]) == [] && EncodeImms([]) == []
  {}

  // Appending a block of immediates at the end.
  lemma ImmBlockCopied(buf: seq<Byte>, ids: seq<nat>, imms: seq<Imm>, immPos: nat, immLen: nat, blocks: nat, block: seq<Imm>)
    requires Holds(buf, ids, imms, immPos, immLen, blocks) && |imms| + |block| < 128
    requires immPos + immLen + |EncodeImms(block)| <= |buf|
    ensures var len := |EncodeImms(block)|;
            Holds(Overwrite(buf, immPos + immLen, EncodeImms(block))[immPos := |imms| + |block|],
                  ids, imms + block, immPos, immLen + len, blocks)
  {
    hide EncodeIds, EncodeImms, Overwrite;
    var enc := EncodeImms(block);
    var done := Overwrite(buf, immPos + immLen, enc);
    EncodeImmsAppend(imms, block);
    OverwriteInside(buf, immPos + immLen, enc);
    OverwriteOutside(buf, immPos + immLen, enc, 0, immPos + immLen);
    var buf' := done[immPos := |imms| + |block|];
    assert done[..immPos + immLen] == buf[..immPos + immLen];
    AfterCount(buf, immPos, immLen, |imms|, EncodeImms(imms));
    CountAndParts(done, immPos, immLen, |enc|, |imms| + |block|);
    SamePrefix(done, buf, immPos + immLen, immPos + 1);
    assert [|imms| + |block|] + EncodeImms(imms) + enc == [|imms| + |block|] + (EncodeImms(imms) + enc);
    SamePrefix(done, buf, immPos + immLen, 1);
    assert buf'[1..immPos] == buf[1..immPos] by { FrontKept(done, buf, immPos, immPos + immLen, |imms| + |block|); }
  }

  lemma CountAndParts(s: seq<Byte>, pos: nat, a: nat, b: nat, count: Byte)
    requires a > 0 && pos + a + b <= |s|
    ensures s[pos := count][pos..pos + a + b] == [count] + s[pos + 1..pos + a] + s[pos + a..pos + a + b]
  {
    var l, r := s[pos := count][pos..pos + a + b], [count] + s[pos + 1..pos + a] + s[pos + a..pos + a + b];
    assert |l| == |r|;
    forall i: nat | i < |l| ensures l[i] == r[i] { assert l[i] == s[pos := count][pos + i]; }
  }

  lemma FrontKept(done: seq<Byte>, buf: seq<Byte>, pos: nat, end: nat, count: Byte)
    requires 0 < pos < end <= |done| && end <= |buf| && done[1..end] == buf[1..end]
    ensures done[pos := count][1..pos] == buf[1..pos]
  {
    assert done[pos := count][1..pos] == done[1..pos] == done[1..end][..pos - 1];
    assert buf[1..pos] == buf[1..end][..pos - 1];
  }

  lemma AfterCount(s: seq<Byte>, pos: nat, len: nat, count: nat, enc: seq<Byte>)
    requires 0 < len && pos + len <= |s| && count < 256 && s[pos..pos + len] == [count] + enc
    ensures s[pos + 1..pos + len] == enc
  {
    assert s[pos + 1..pos + len] == s[pos..pos + len][1..];
    assert ([count] + enc)[1..] == enc;
  }

  lemma SamePrefix(s: seq<Byte>, t: seq<Byte>, hi: nat, lo: nat)
    requires lo <= hi <= |s| && hi <= |t| && s[..hi] == t[..hi]
    ensures s[lo..hi] == t[lo..hi]
  {
    assert s[lo..hi] == s[..hi][lo..] && t[lo..hi] == t[..hi][lo..];
  }

  predicate AllU64(ids: seq<nat>) {
    forall i: nat | i < |ids| :: ids[i] < U64
  }

  predicate AllValid(imms: seq<Imm>) {
    forall i: nat | i < |imms| :: imms[i].Valid()
  }

  /** The node ids among the entries, in order. */
  function Refs(list: seq<WireEntry>): seq<nat> {
    if list == [] then []
    else if list[|list| - 1].Ref? then Refs(list[..|list| - 1]) + [list[|list| - 1].id]
    else Refs(list[..|list| - 1])
  }

  /** The immediates among the entries, in order. */
  function Values(list: seq<WireEntry>): seq<Imm> {
    if list == [] then []
    else if list[|list| - 1].Value? then Values(list[..|list| - 1]) + [list[|list| - 1].imm]
    else Values(list[..|list| - 1])
  }

  lemma NoEntries()
    ensures Refs([]) == [] && Values([]) == []
  {
  }

  lemma EntrySnoc(list: seq<WireEntry>, p: nat)
    requires p < |list|
    ensures Refs(list[..p + 1]) == Refs(list[..p]) + if list[p].Ref? then [list[p].id] else []
    ensures Values(list[..p + 1]) == Values(list[..p]) + if list[p].Value? then [list[p].imm] else []
  {
    assert list[..p + 1][..p] == list[..p];
  }

  // --- What is taken in

  /** The bytes a record needs: two counts and all its codes. */
  function WireLen(r: Rec): nat {
    2 + |EncodeIds(r.ids)| + |EncodeImms(r.imms)|
  }

  /** A record fits a buffer if its bytes do and both counts stay below 128. */
  predicate FitsIn(r: Rec, size: nat) {
    |r.ids| < 128 && |r.imms| < 128 && WireLen(r) <= size
  }

  /** A block of node ids is taken in whole or not at all. */
  function TakeIds(r: Rec, block: seq<nat>, size: nat): Rec {
    var w := Rec(r.ids + block, r.imms);
    if FitsIn(w, size) then w else r
  }

  function TakeImms(r: Rec, block: seq<Imm>, size: nat): Rec {
    var w := Rec(r.ids, r.imms + block);
    if FitsIn(w, size) then w else r
  }

  /** Node ids in blocks of four. */
  function TakeAllIds(r: Rec, ids: seq<nat>, size: nat): Rec
    decreases |ids|
  {
    if ids == [] then r
    else
      var blk := BlockSize(ids);
      TakeAllIds(TakeIds(r, ids[..blk], size), ids[blk..], size)
  }

  /** Immediates in blocks of four. */
  function TakeAllImms(r: Rec, imms: seq<Imm>, size: nat): Rec
    decreases |imms|
  {
    if imms == [] then r
    else
      var blk := if |imms| < BLOCK then |imms| else BLOCK;
      TakeAllImms(TakeImms(r, imms[..blk], size), imms[blk..], size)
  }

  lemma OneBlock(r: Rec, ids: seq<nat>, imms: seq<Imm>, size: nat)
    ensures |ids| <= BLOCK ==> TakeAllIds(r, ids, size) == TakeIds(r, ids, size)
    ensures |imms| <= BLOCK ==> TakeAllImms(r, imms, size) == TakeImms(r, imms, size)
  {
    assert r.ids + [] == r.ids && r.imms + [] == r.imms;
    assert ids[..|ids|] == ids && imms[..|imms|] == imms;
  }

  // The record so far, and the references and immediates waiting for their block to fill.
  datatype Packing = Packing(rec: Rec, nodes: seq<nat>, values: seq<Imm>)

  function PackEntry(s: Packing, e: WireEntry, size: nat): Packing {
    match e
    case NoWireEntry => s
    case Ref(id) =>
      var nodes := s.nodes + [id];
      if |nodes| == BLOCK then Packing(TakeIds(s.rec, nodes, size), [], s.values) else s.(nodes := nodes)
    case Value(imm) =>
      var values := s.values + [imm];
      if |values| == BLOCK then Packing(TakeImms(s.rec, values, size), s.nodes, []) else s.(values := values)
  }

  function PackList(r: Rec, list: seq<WireEntry>, size: nat): Packing {
    if list == [] then Packing(r, [], [])
    else PackEntry(PackList(r, list[..|list| - 1], size), list[|list| - 1], size)
  }

  /** The record after a list of entries was appended to r. */
  function Packed(r: Rec, list: seq<WireEntry>, size: nat): Rec {
    var s := PackList(r, list, size);
    TakeImms(TakeIds(s.rec, s.nodes, size), s.values, size)
  }

  /** The record with all entries of the list added. */
  function WithAll(r: Rec, list: seq<WireEntry>): Rec {
    Rec(r.ids + Refs(list), r.imms + Values(list))
  }

  lemma {:induction false} PackListFits(r: Rec, list: seq<WireEntry>, size: nat)
    requires FitsIn(r, size)
    ensures FitsIn(PackList(r, list, size).rec, size)
  {
    hide FitsIn;
    if list != [] { PackListFits(r, list[..|list| - 1], size); }
  }

  lemma PackSnoc(r: Rec, list: seq<WireEntry>, p: nat, size: nat)
    requires p < |list|
    ensures PackList(r, list[..p + 1], size) == PackEntry(PackList(r, list[..p], size), list[p], size)
  {
    assert list[..p + 1][..p] == list[..p];
  }

  /** More entries need more room. */
  lemma FitsPrefix(r: Rec, ids: seq<nat>, imms: seq<Imm>, size: nat)
    requires FitsIn(Rec(r.ids + ids, r.imms + imms), size)
    ensures FitsIn(r, size)
  {
    EncodeIdsAppend(r.ids, ids);
    EncodeImmsAppend(r.imms, imms);
  }

  // Nothing has been dropped: what was taken in and what waits is all there is.
  ghost predicate AllThere(s: Packing, all: Rec) {
    s.rec.ids + s.nodes == all.ids && s.rec.imms + s.values == all.imms
  }

  lemma TakeFits(r: Rec, ids: seq<nat>, imms: seq<Imm>, all: Rec, size: nat)
    requires FitsIn(all, size) && r.ids + ids == all.ids && r.imms + imms == all.imms
    ensures TakeIds(r, ids, size) == Rec(all.ids, r.imms) && TakeImms(r, imms, size) == Rec(r.ids, all.imms)
  {
    hide WireLen;
    assert all.ids + [] == all.ids && all.imms + [] == all.imms;
    FitsPrefix(Rec(all.ids, r.imms), [], imms, size);
    FitsPrefix(Rec(r.ids, all.imms), ids, [], size);
  }

  lemma PackEntryAllThere(s: Packing, e: WireEntry, before: Rec, all: Rec, size: nat)
    requires AllThere(s, before) && FitsIn(all, size)
    requires all == Rec(before.ids + (if e.Ref? then [e.id] else []), before.imms + if e.Value? then [e.imm] else [])
    ensures AllThere(PackEntry(s, e, size), all)
  {
    hide FitsIn;
    assert before.ids + [] == before.ids && before.imms + [] == before.imms;
    var nodes := if e.Ref? then s.nodes + [e.id] else s.nodes;
    var values := if e.Value? then s.values + [e.imm] else s.values;
    assert s.rec.ids + nodes == all.ids && s.rec.imms + values == all.imms;
    TakeFits(s.rec, nodes, values, all, size);
    assert all.ids + [] == all.ids && all.imms + [] == all.imms;
  }

  lemma {:induction false} PackListAllThere(r: Rec, list: seq<WireEntry>, size: nat)
    requires FitsIn(WithAll(r, list), size)
    ensures AllThere(PackList(r, list, size), WithAll(r, list))
  {
    hide FitsIn, PackEntry;
    if list == [] {
      assert r.ids + [] == r.ids && r.imms + [] == r.imms;
    } else {
      var n := |list| - 1;
      EntrySnoc(list, n);
      assert list[..n + 1] == list;
      var e := list[n];
      var all, before := WithAll(r, list), WithAll(r, list[..n]);
      var ids: seq<nat>, imms: seq<Imm> := if e.Ref? then [e.id] else [], if e.Value? then [e.imm] else [];
      assert all.ids == before.ids + ids && all.imms == before.imms + imms;
      FitsPrefix(before, ids, imms, size);
      PackListAllThere(r, list[..n], size);
      PackEntryAllThere(PackList(r, list[..n], size), e, before, all, size);
    }
  }

  /** All entries of a list are taken in if and only if the record with all of them fits. */
  lemma PackedWholeIff(r: Rec, list: seq<WireEntry>, size: nat)
    requires FitsIn(r, size)
    ensures Packed(r, list, size) == WithAll(r, list) <==> FitsIn(WithAll(r, list), size)
    ensures FitsIn(Packed(r, list, size), size)
  {
    PackListFits(r, list, size);
    var s := PackList(r, list, size);
    if FitsIn(WithAll(r, list), size) {
      PackListAllThere(r, list, size);
      var all := WithAll(r, list);
      TakeFits(s.rec, s.nodes, s.values, all, size);
      assert all.ids + [] == all.ids;
      TakeFits(Rec(all.ids, s.rec.imms), [], s.values, all, size);
    }
  }

  lemma {:induction false} TakeAllIdsWhole(r: Rec, ids: seq<nat>, size: nat)
    requires FitsIn(Rec(r.ids + ids, r.imms), size)
    ensures TakeAllIds(r, ids, size) == Rec(r.ids + ids, r.imms)
    decreases |ids|
  {
    hide FitsIn;
    if ids == [] {
      assert r.ids + ids == r.ids;
    } else {
      var blk := BlockSize(ids);
      var w := Rec(r.ids + ids[..blk], r.imms);
      assert w.ids + ids[blk..] == r.ids + ids && r.imms + [] == r.imms;
      FitsPrefix(w, ids[blk..], [], size);
      TakeAllIdsWhole(w, ids[blk..], size);
    }
  }

  lemma {:induction false} TakeAllImmsWhole(r: Rec, imms: seq<Imm>, size: nat)
    requires FitsIn(Rec(r.ids, r.imms + imms), size)
    ensures TakeAllImms(r, imms, size) == Rec(r.ids, r.imms + imms)
    decreases |imms|
  {
    hide FitsIn;
    if imms == [] {
      assert r.imms + imms == r.imms;
    } else {
      var blk := if |imms| < BLOCK then |imms| else BLOCK;
      var w := Rec(r.ids, r.imms + imms[..blk]);
      assert w.imms + imms[blk..] == r.imms + imms && r.ids + [] == r.ids;
      FitsPrefix(w, [], imms[blk..], size);
      TakeAllImmsWhole(w, imms[blk..], size);
    }
  }

  lemma TakeIdsStep(r: Rec, vec: seq<nat>, p: nat, size: nat)
    requires p < |vec|
    ensures var blk := if |vec| - p < BLOCK then |vec| - p else BLOCK;
            TakeAllIds(r, vec[p..], size) == TakeAllIds(TakeIds(r, vec[p..p + blk], size), vec[p + blk..], size)
  {
    var blk := BlockSize(vec[p..]);
    assert vec[p..][..blk] == vec[p..p + blk] && vec[p..][blk..] == vec[p + blk..];
  }

  lemma TakeImmsStep(r: Rec, vec: seq<Imm>, p: nat, size: nat)
    requires p < |vec|
    ensures var blk := if |vec| - p < BLOCK then |vec| - p else BLOCK;
            TakeAllImms(r, vec[p..], size) == TakeAllImms(TakeImms(r, vec[p..p + blk], size), vec[p + blk..], size)
  {
    var blk := if |vec| - p < BLOCK then |vec| - p else BLOCK;
    assert vec[p..][..blk] == vec[p..p + blk] && vec[p..][blk..] == vec[p + blk..];
  }

  lemma NothingToTake(r: Rec, size: nat)
    ensures TakeAllIds(r, [], size) == r && TakeAllImms(r, [], size) == r
  {
  }

  lemma NoPacking(r: Rec, size: nat)
    ensures PackList(r, [], size) == Packing(r, [], [])
  {
  }

  lemma HoldsFits(buf: seq<Byte>, ids: seq<nat>, imms: seq<Imm>, immPos: nat, immLen: nat, blocks: nat,
                  nodes: seq<nat>, values: seq<Imm>)
    requires Holds(buf, ids, imms, immPos, immLen, blocks)
    ensures FitsIn(Rec(ids, imms), |buf|)
    ensures FitsIn(Rec(ids + nodes, imms + values), |buf|) <==>
              && |ids| + |nodes| < 128 && |imms| + |values| < 128
              && immPos + immLen + |EncodeIds(nodes)| + |EncodeImms(values)| <= |buf|
    ensures EncodeIds([]) == [] && EncodeImms([]) == [] && ids + [] == ids && imms + [] == imms
  {
    hide EncodeIds, EncodeImms;
    EncodeNone();
    EncodeIdsAppend(ids, nodes);
    EncodeImmsAppend(imms, values);
  }

  lemma LastCopied(buf: seq<Byte>, ids: seq<nat>, immPos: nat, immLen: nat, blocks: nat, last: seq<nat>,
                   block: seq<nat>, total: Byte)
    requires LastOk(buf, ids, blocks, last) && 0 < |block| <= BLOCK
    requires |buf| > 0 && immPos >= 1 && immPos + immLen + |EncodeIds(block)| <= |buf|
    ensures LastOk(NodeBlockCopy(buf, immPos, immLen, block, total), ids + block, blocks + 1, block)
  {
    hide EncodeIds, NodeBlockCopy;
    CopyLayout(buf, immPos, immLen, block, total);
    assert (ids + block)[|ids|..] == block;
  }

  lemma LastKept(buf: seq<Byte>, ids: seq<nat>, imms: seq<Imm>, immPos: nat, immLen: nat, blocks: nat, last: seq<nat>,
                 block: seq<Imm>, total: Byte)
    requires Holds(buf, ids, imms, immPos, immLen, blocks) && LastOk(buf, ids, blocks, last)
    requires immPos + immLen + |EncodeImms(block)| <= |buf|
    ensures LastOk(Overwrite(buf, immPos + immLen, EncodeImms(block))[immPos := total], ids, blocks, last)
  {
    hide EncodeIds, EncodeImms, Overwrite;
    var enc := EncodeImms(block);
    var len := |EncodeIds(last)|;
    LastLength(ids, last);
    OverwriteOutside(buf, immPos + immLen, enc, 1, 1 + len);
    var done := Overwrite(buf, immPos + immLen, enc);
    assert done[immPos := total][1..1 + len] == done[1..1 + len];
  }

  lemma LastLength(ids: seq<nat>, last: seq<nat>)
    requires |last| <= |ids| && last == ids[|ids| - |last|..]
    ensures |EncodeIds(last)| <= |EncodeIds(ids)|
  {
    var front := ids[..|ids| - |last|];
    assert ids == front + last;
    EncodeIdsAppend(front, last);
  }

  /** The last block copied in is at the front of the node section, and it is not all of the ids once
      there are two blocks. */
  ghost predicate LastOk(buf: seq<Byte>, ids: seq<nat>, blocks: nat, last: seq<nat>) {
    && |last| <= |ids| <= BLOCK * blocks && last == ids[|ids| - |last|..] && 1 + |EncodeIds(last)| <= |buf|
    && (blocks > 0 ==> |last| > 0) && (blocks > 1 ==> |last| < |ids|)
    && buf[1..1 + |EncodeIds(last)|] == EncodeIds(last)
  }

  class CompressedSnapshotRecord {
    const buffer: array<Byte>
    var numNodes: nat
    var numImm: nat
    var immPos: nat
    var immLen: nat
    var neededLen: nat
    var skipped: nat
    ghost var ids: seq<nat>          // node ids taken in
    ghost var imms: seq<Imm>         // immediates taken in
    ghost var blocks: nat            // blocks of node ids copied in
    ghost var last: seq<nat>         // the last of them
    ghost var offered: nat           // entries offered so far
    ghost var offeredLen: nat        // encoded length of all of them

    ghost predicate Valid()
      reads this, buffer
    {
      && numNodes == |ids| && numImm == |imms|
      && Holds(buffer[..], ids, imms, immPos, immLen, blocks)
      && AllU64(ids) && AllValid(imms) && LastOk(buffer[..], ids, blocks, last)
    }

    /** What has been taken in. */
    ghost function Taken(): Rec
      reads this
    {
      Rec(ids, imms)
    }

    /** Nothing is lost uncounted: entries taken in and entries skipped add up to the entries offered. */
    ghost predicate Counted()
      reads this
    {
      |ids| + |imms| + skipped == offered && neededLen == 2 + offeredLen
    }

    constructor (len: nat)
      requires len >= 2
      ensures Valid() && Counted() && fresh(buffer) && buffer.Length == len
      ensures ids == [] && imms == [] && blocks == 0 && offered == 0 && offeredLen == 0 && skipped == 0
    {
      buffer := new Byte[len](_ => 0);
      numNodes, numImm, immPos, immLen, neededLen, skipped := 0, 0, 1, 1, 2, 0;
      ids, imms, blocks, last, offered, offeredLen := [], [], 0, [], 0, 0;
    }

    function Size(): nat
      reads this, buffer
    {
      if immPos + immLen < buffer.Length then immPos + immLen else buffer.Length
    }

    /** Encodes one block of node ids and copies it in if it fits. */
    method AppendNodeBlock(block: seq<nat>) returns (dropped: nat)
      requires Valid() && 0 < |block| <= BLOCK && AllU64(block)
      modifies this`numNodes, this`immPos, this`neededLen, this`ids, this`blocks, this`last, buffer
      ensures Valid() && Taken() == TakeIds(old(Taken()), block, buffer.Length)
      ensures neededLen == old(neededLen) + |EncodeIds(block)|
      ensures dropped == 0 ==>
                && ids == old(ids) + block && blocks == old(blocks) + 1 && immPos == old(immPos) + |EncodeIds(block)|
                && 1 <= old(immPos) && immPos + immLen <= buffer.Length && |ids| < 128
                && buffer[..] == NodeBlockCopy(old(buffer[..]), old(immPos), immLen, block, |ids|)
      ensures dropped != 0 ==> dropped == |block| && ids == old(ids) && blocks == old(blocks)
      ensures dropped == 0 <==> |old(ids)| + |block| < 128 && old(immPos) + immLen + |EncodeIds(block)| <= buffer.Length
    {
      hide Holds, EncodeIds, NodeBlockCopy, LastOk, FitsIn;
      var tmp, len := EncodeIdBlock(block);
      dropped := 0;
      ghost var b := buffer[..];
      HoldsBounds(b, ids, imms, immPos, immLen, blocks);
      HoldsFits(b, ids, imms, immPos, immLen, blocks, block, []);
      if numNodes + |block| < 128 && immPos + immLen + len <= buffer.Length {
        NodeBlockCopied(b, ids, imms, immPos, immLen, blocks, block);
        LastCopied(b, ids, immPos, immLen, blocks, last, block, |ids| + |block|);
        CopyNodeBlock(tmp, len, block, numNodes + |block|);
        immPos := immPos + len;
        numNodes := numNodes + |block|;
        ids, blocks, last := ids + block, blocks + 1, block;
      } else {
        dropped := |block|;
      }
      neededLen := neededLen + len;
    }

    /** Moves the immediates up, copies the codes to the front and sets the count. */
    method CopyNodeBlock(tmp: array<Byte>, len: nat, ghost block: seq<nat>, total: Byte)
      requires tmp != buffer && len <= tmp.Length && tmp[..len] == EncodeIds(block)
      requires immPos >= 1 && immPos + immLen + len <= buffer.Length
      modifies buffer
      ensures buffer[..] == NodeBlockCopy(old(buffer[..]), immPos, immLen, block, total)
    {
      hide EncodeIds, Overwrite;
      assert tmp[0..len] == tmp[..len];
      SaveMemmove(buffer, immPos + len, immPos, immLen);
      Memcpy(buffer, 1, tmp, 0, len);
      Store(buffer, 0, total);
    }

    /** Encodes one block of immediates and appends it if it fits. */
    method AppendImmBlock(block: seq<Imm>) returns (dropped: nat)
      requires Valid() && 0 < |block| <= BLOCK && AllValid(block)
      modifies this`numImm, this`immLen, this`neededLen, this`imms, buffer
      ensures Valid() && Taken() == TakeImms(old(Taken()), block, buffer.Length)
      ensures neededLen == old(neededLen) + |EncodeImms(block)|
      ensures dropped == 0 ==> imms == old(imms) + block
      ensures dropped != 0 ==> dropped == |block| && imms == old(imms)
      ensures dropped == 0 <==> |old(imms)| + |block| < 128 && immPos + old(immLen) + |EncodeImms(block)| <= buffer.Length
    {
      hide Holds, EncodeImms, Overwrite, LastOk, FitsIn;
      var tmp, len := EncodeValueBlock(block);
      dropped := 0;
      ghost var b := buffer[..];
      HoldsBounds(b, ids, imms, immPos, immLen, blocks);
      HoldsFits(b, ids, imms, immPos, immLen, blocks, [], block);
      if numImm + |block| < 128 && immPos + immLen + len <= buffer.Length {
        ImmBlockCopied(b, ids, imms, immPos, immLen, blocks, block);
        LastKept(b, ids, imms, immPos, immLen, blocks, last, block, |imms| + |block|);
        assert tmp[0..len] == tmp[..len];
        Memcpy(buffer, immPos + immLen, tmp, 0, len);
        immLen := immLen + len;
        numImm := numImm + |block|;
        Store(buffer, immPos, numImm);
        imms := imms + block;
      } else {
        dropped := |block|;
      }
      neededLen := neededLen + len;
    }

    /** Copies node ids in, four at a time. */
    method AppendNodeBlocks(vec: seq<nat>) returns (dropped: nat)
      requires Valid() && AllU64(vec)
      modifies this`numNodes, this`immPos, this`neededLen, this`ids, this`blocks, this`last, buffer
      ensures Valid() && neededLen == old(neededLen) + |EncodeIds(vec)| && |ids| + dropped == |old(ids)| + |vec|
      ensures dropped == 0 ==> ids == old(ids) + vec
      ensures Taken() == TakeAllIds(old(Taken()), vec, buffer.Length)
      ensures BLOCK * (blocks - old(blocks)) <= |vec| + BLOCK - 1
      ensures NodesFit(old(immPos), immLen, |old(ids)|, vec, buffer.Length) ==>
                && dropped == 0
                && buffer[..] == NodesCopied(old(buffer[..]), old(immPos), immLen, |old(ids)|, vec)
    {
      hide Valid, EncodeIds, NodeBlockCopy, NodesFit, NodesCopied, CopyLeft, AllU64, TakeIds, TakeAllIds;
      dropped := 0;
      var p := 0;
      EncodeNone();
      assert vec[0..] == vec;
      ghost var ids0, blocks0, needed0, size := ids, blocks, neededLen, buffer.Length;
      ghost var goal := TakeAllIds(Taken(), vec, size);
      ghost var fits := NodesFit(immPos, immLen, |ids|, vec, size);
      ghost var target := if fits then NodesCopied(buffer[..], immPos, immLen, |ids|, vec) else [];
      assert fits ==> CopyLeft(buffer[..], immPos, immLen, |ids|, vec[p..], target) by {
        if fits { CopyStarts(buffer[..], immPos, immLen, |ids|, vec); }
      }
      while p < |vec|
        invariant 0 <= p <= |vec| && Valid()
        invariant neededLen == needed0 + |EncodeIds(vec[..p])|
        invariant |ids| + dropped == |ids0| + p && (dropped == 0 ==> ids == ids0 + vec[..p])
        invariant BLOCK * (blocks - blocks0) <= if p == |vec| then p + BLOCK - 1 else p
        invariant TakeAllIds(Taken(), vec[p..], size) == goal
        invariant fits ==> dropped == 0 && CopyLeft(buffer[..], immPos, immLen, |ids|, vec[p..], target)
      {
        var blk := if |vec| - p < BLOCK then |vec| - p else BLOCK;
        ghost var buf, pos, done := buffer[..], immPos, |ids|;
        NextBlock(vec, p, blk);
        TakeIdsStep(Taken(), vec, p, size);
        if fits { CopyStep(buf, pos, immLen, done, vec, p, target); }
        var d := AppendNodeBlock(vec[p..p + blk]);
        dropped := dropped + d;
        p := p + blk;
      }
      assert vec[..|vec|] == vec && vec[p..] == [];
      if fits { CopyEnd(buffer[..], immPos, immLen, |ids|, vec[p..], target); }
      NothingToTake(Taken(), size);
    }

    /** Appends node ids. Nothing is dropped exactly if the record with all of them fits. */
    method AppendNodes(vec: seq<nat>) returns (dropped: nat)
      requires Valid() && Counted() && AllU64(vec)
      modifies this, buffer
      ensures Valid() && Counted() && offered == old(offered) + |vec| && offeredLen == old(offeredLen) + |EncodeIds(vec)|
      ensures imms == old(imms) && skipped == old(skipped) + dropped
      ensures dropped == 0 ==> ids == old(ids) + vec
      ensures Taken() == TakeAllIds(old(Taken()), vec, buffer.Length)
      ensures dropped == 0 <==> FitsIn(Rec(old(ids) + vec, imms), buffer.Length)
      ensures BLOCK * (blocks - old(blocks)) <= |vec| + BLOCK - 1
      ensures NodesFit(old(immPos), old(immLen), |old(ids)|, vec, buffer.Length) ==>
                && dropped == 0
                && buffer[..] == NodesCopied(old(buffer[..]), old(immPos), old(immLen), |old(ids)|, vec)
    {
      hide Holds, EncodeIds, NodesFit, NodesCopied, AllU64, AllValid, LastOk, TakeAllIds, FitsIn;
      if FitsIn(Rec(ids + vec, imms), buffer.Length) { TakeAllIdsWhole(Taken(), vec, buffer.Length); }
      dropped := AppendNodeBlocks(vec);
      RecordFits();
      skipped := skipped + dropped;
      offered, offeredLen := offered + |vec|, offeredLen + |EncodeIds(vec)|;
    }

    /** Appends immediates, four at a time. */
    method AppendImmediates(vec: seq<Imm>) returns (dropped: nat)
      requires Valid() && Counted() && AllValid(vec)
      modifies this, buffer
      ensures Valid() && Counted() && offered == old(offered) + |vec| && offeredLen == old(offeredLen) + |EncodeImms(vec)|
      ensures ids == old(ids) && blocks == old(blocks) && skipped == old(skipped) + dropped
      ensures dropped == 0 ==> imms == old(imms) + vec
      ensures Taken() == TakeAllImms(old(Taken()), vec, buffer.Length)
      ensures dropped == 0 <==> FitsIn(Rec(ids, old(imms) + vec), buffer.Length)
    {
      hide Holds, EncodeImms, LastOk, TakeImms, TakeAllImms, FitsIn;
      if FitsIn(Rec(ids, imms + vec), buffer.Length) { TakeAllImmsWhole(Taken(), vec, buffer.Length); }
      assert vec[0..] == vec;
      ghost var target := TakeAllImms(Taken(), vec, buffer.Length);
      dropped := 0;
      var p := 0;
      EncodeNone();
      while p < |vec|
        invariant 0 <= p <= |vec| && Valid()
        invariant neededLen == old(neededLen) + |EncodeImms(vec[..p])| && skipped == old(skipped)
        invariant ids == old(ids) && blocks == old(blocks)
        invariant TakeAllImms(Taken(), vec[p..], buffer.Length) == target
        invariant |imms| + dropped == |old(imms)| + p && offered == old(offered) && offeredLen == old(offeredLen)
        invariant dropped == 0 ==> imms == old(imms) + vec[..p]
      {
        var blk := if |vec| - p < BLOCK then |vec| - p else BLOCK;
        TakeImmsStep(Taken(), vec, p, buffer.Length);
        var d := AppendImmBlock(vec[p..p + blk]);
        dropped := dropped + d;
        EncodeImmsAppend(vec[..p], vec[p..p + blk]);
        assert vec[..p + blk] == vec[..p] + vec[p..p + blk];
        p := p + blk;
      }
      assert vec[..|vec|] == vec;
      NothingToTake(Taken(), buffer.Length);
      assert vec[p..] == [];
      RecordFits();
      skipped := skipped + dropped;
      offered, offeredLen := offered + |vec|, offeredLen + |EncodeImms(vec)|;
    }

    /** One more reference: appended with its block once that is full. */
    method OfferRef(nodes: seq<nat>, id: nat, ghost values: seq<Imm>) returns (rest: seq<nat>, d: nat)
      requires Valid() && Counted() && |nodes| < BLOCK && AllU64(nodes) && id < U64
      modifies this, buffer
      ensures Valid() && Counted() && skipped == old(skipped) + d && imms == old(imms) && |rest| < BLOCK && AllU64(rest)
      ensures Packing(Taken(), rest, values) == PackEntry(Packing(old(Taken()), nodes, values), Ref(id), buffer.Length)
      ensures d == 0 ==> ids + rest == old(ids) + (nodes + [id])
      ensures offered + |rest| == old(offered) + |nodes| + 1
      ensures offeredLen + |EncodeIds(rest)| == old(offeredLen) + |EncodeIds(nodes + [id])|
      ensures BLOCK * (blocks - old(blocks)) <= |nodes| + 1 - |rest|
    {
      hide Holds, EncodeIds, NodesFit, NodesCopied, LastOk, TakeIds, TakeAllIds;
      rest, d := nodes + [id], 0;
      EncodeNone();
      if |rest| == BLOCK {
        OneBlock(Taken(), rest, [], buffer.Length);
        d := AppendNodes(rest);
        assert ids + [] == ids;
        rest := [];
      }
    }

    /** One more immediate, likewise. */
    method OfferValue(values: seq<Imm>, imm: Imm, ghost nodes: seq<nat>) returns (rest: seq<Imm>, d: nat)
      requires Valid() && Counted() && |values| < BLOCK && AllValid(values) && imm.Valid()
      modifies this, buffer
      ensures Valid() && Counted() && skipped == old(skipped) + d && ids == old(ids) && blocks == old(blocks)
      ensures |rest| < BLOCK && AllValid(rest)
      ensures Packing(Taken(), nodes, rest) == PackEntry(Packing(old(Taken()), nodes, values), Value(imm), buffer.Length)
      ensures d == 0 ==> imms + rest == old(imms) + (values + [imm])
      ensures offered + |rest| == old(offered) + |values| + 1
      ensures offeredLen + |EncodeImms(rest)| == old(offeredLen) + |EncodeImms(values + [imm])|
    {
      hide Holds, EncodeImms, LastOk, TakeImms, TakeAllImms;
      rest, d := values + [imm], 0;
      EncodeNone();
      if |rest| == BLOCK {
        OneBlock(Taken(), [], rest, buffer.Length);
        d := AppendImmediates(rest);
        assert imms + [] == imms;
        rest := [];
      }
    }

    /** Appends a list of entries: references and immediates are collected separately and handed over
        in blocks, so their interleaving does not matter. Nothing is dropped exactly if the record with
        all of them fits. */
    method AppendEntries(list: seq<WireEntry>) returns (dropped: nat)
      requires Valid() && Counted() && forall e | e in list :: e.Valid()
      modifies this, buffer
      ensures Valid() && Counted() && skipped == old(skipped) + dropped
      ensures offered == old(offered) + |Refs(list)| + |Values(list)|
      ensures offeredLen == old(offeredLen) + |EncodeIds(Refs(list))| + |EncodeImms(Values(list))|
      ensures Taken() == Packed(old(Taken()), list, buffer.Length)
      ensures dropped == 0 <==> FitsIn(WithAll(old(Taken()), list), buffer.Length)
      ensures dropped == 0 <==> Taken() == WithAll(old(Taken()), list)
      ensures |Refs(list)| <= BLOCK ==> blocks <= old(blocks) + 1
    {
      hide Holds, EncodeIds, EncodeImms, Refs, Values, LastOk, PackList, PackEntry, FitsIn;
      ghost var r0, size := Taken(), buffer.Length;
      RecordFits();
      PackedWholeIff(r0, list, size);
      dropped := 0;
      EncodeNone();
      NoEntries();
      NoPacking(r0, size);
      assert list[..0] == [];
      assert ids + [] == ids && imms + [] == imms;
      var nodes: seq<nat>, values: seq<Imm> := [], [];
      for p := 0 to |list|
        invariant Valid() && Counted() && skipped == old(skipped) + dropped
        invariant |nodes| < BLOCK && |values| < BLOCK && AllU64(nodes) && AllValid(values)
        invariant Packing(Taken(), nodes, values) == PackList(r0, list[..p], size)
        invariant offered + |nodes| + |values| == old(offered) + |Refs(list[..p])| + |Values(list[..p])|
        invariant offeredLen + |EncodeIds(nodes)| + |EncodeImms(values)|
               == old(offeredLen) + |EncodeIds(Refs(list[..p]))| + |EncodeImms(Values(list[..p]))|
        invariant dropped == 0 ==> ids + nodes == r0.ids + Refs(list[..p]) && imms + values == r0.imms + Values(list[..p])
        invariant BLOCK * (blocks - old(blocks)) <= |Refs(list[..p])| - |nodes|
      {
        assert list[p] in list;
        PackSnoc(r0, list, p, size);
        EntrySnoc(list, p);
        EncodeSnoc(Refs(list[..p]), nodes, list[p], Values(list[..p]), values);
        SnocBoth(r0, ids, nodes, imms, values, list, p);
        ghost var was := Packing(Taken(), nodes, values);
        match list[p]
        case NoWireEntry =>
          SkipEntry(was, size);
        case Ref(id) =>
          var d: nat;
          nodes, d := OfferRef(nodes, id, values);
          dropped := dropped + d;
        case Value(imm) =>
          var d: nat;
          values, d := OfferValue(values, imm, nodes);
          dropped := dropped + d;
      }
      assert list[..|list|] == list;
      OneBlock(Taken(), nodes, [], size);
      var d := AppendNodes(nodes);
      dropped := dropped + d;
      OneBlock(Taken(), [], values, size);
      d := AppendImmediates(values);
      dropped := dropped + d;
    }

    lemma RecordFits()
      requires Valid()
      ensures FitsIn(Taken(), buffer.Length)
    {
      HoldsFits(buffer[..], ids, imms, immPos, immLen, blocks, [], []);
    }
  }

  lemma SkipEntry(s: Packing, size: nat)
    ensures PackEntry(s, NoWireEntry, size) == s
  {
  }

  lemma EncodeSnoc(refs: seq<nat>, nodes: seq<nat>, e: WireEntry, vals: seq<Imm>, values: seq<Imm>)
    ensures e.Ref? ==> |EncodeIds(refs + [e.id])| - |EncodeIds(refs)| == |EncodeIds(nodes + [e.id])| - |EncodeIds(nodes)|
    ensures e.Value? ==> |EncodeImms(vals + [e.imm])| - |EncodeImms(vals)| == |EncodeImms(values + [e.imm])| - |EncodeImms(values)|
    ensures refs + [] == refs && vals + [] == vals
  {
    if e.Ref? {
      EncodeIdsAppend(refs, [e.id]);
      EncodeIdsAppend(nodes, [e.id]);
    }
    if e.Value? {
      EncodeImmsAppend(vals, [e.imm]);
      EncodeImmsAppend(values, [e.imm]);
    }
  }

  lemma SnocBoth(r0: Rec, ids: seq<nat>, nodes: seq<nat>, imms: seq<Imm>, values: seq<Imm>, list: seq<WireEntry>, p: nat)
    requires p < |list|
    ensures var e, refs := list[p], Refs(list[..p]);
            e.Ref? && ids + nodes == r0.ids + refs ==> ids + (nodes + [e.id]) == r0.ids + (refs + [e.id])
    ensures var e, vals := list[p], Values(list[..p]);
            e.Value? && imms + values == r0.imms + vals ==> imms + (values + [e.imm]) == r0.imms + (vals + [e.imm])
  {
    hide Refs, Values;
    var e, refs, vals := list[p], Refs(list[..p]), Values(list[..p]);
    if e.Ref? { assert ids + (nodes + [e.id]) == (ids + nodes) + [e.id] && r0.ids + (refs + [e.id]) == (r0.ids + refs) + [e.id]; }
    if e.Value? { assert imms + (values + [e.imm]) == (imms + values) + [e.imm] && r0.imms + (vals + [e.imm]) == (r0.imms + vals) + [e.imm]; }
  }

  // --- The decoder

  datatype View = View(base: nat, numNodes: nat, numImm: nat, immPos: nat, immLen: nat)

  /** The bytes of buf from pos on are those of rec, followed by rest. */
  ghost predicate AtRecord(buf: seq<Byte>, pos: nat, rec: Rec, rest: seq<Byte>) {
    rec.Valid() && pos <= |buf| && buf[pos..] == rec.Bytes() + rest
  }

  method ReadIds(buf: seq<Byte>, pos: nat, n: nat, ghost ids: seq<nat>, ghost rest: seq<Byte>) returns (out: seq<nat>, len: nat)
    requires n <= |ids| && AllU64(ids) && pos <= |buf| && buf[pos..] == EncodeIds(ids) + rest
    ensures out == ids[..n] && len == |EncodeIds(ids[..n])|
  {
    hide EncodeIds, Encode, Decode, Complete;
    out, len := [], 0;
    EncodeNone();
    assert ids[0..] == ids;
    assert buf[pos + 0..] == buf[pos..];
    for i := 0 to n
      invariant out == ids[..i] && len == |EncodeIds(ids[..i])|
      invariant pos + len <= |buf| && buf[pos + len..] == EncodeIds(ids[i..]) + rest
    {
      IdsFront(ids, i, rest);
      ReadCode(buf, pos + len, ids[i], EncodeIds(ids[i + 1..]) + rest);
      var id, k := VldecU64(buf, pos + len);
      out, len := out + [id], len + k;
    }
  }

  lemma IdsFront(ids: seq<nat>, i: nat, rest: seq<Byte>)
    requires i < |ids|
    ensures EncodeIds(ids[i..]) + rest == Encode(ids[i]) + (EncodeIds(ids[i + 1..]) + rest)
    ensures |EncodeIds(ids[..i + 1])| == |EncodeIds(ids[..i])| + |Encode(ids[i])|
  {
    hide Encode;
    assert ids[i..][1..] == ids[i + 1..];
    assert ids[..i + 1] == ids[..i] + [ids[i]];
    EncodeIdsAppend(ids[..i], [ids[i]]);
    EncodeOne(ids[i]);
  }

  // A code in the buffer is complete and reads back.
  lemma ReadCode(buf: seq<Byte>, pos: nat, v: nat, rest: seq<Byte>)
    requires v < U64 && pos <= |buf| && buf[pos..] == Encode(v) + rest
    ensures Complete(buf[pos..], 0) && Decode(buf[pos..], 0) == (v, |Encode(v)|)
    ensures pos + |Encode(v)| <= |buf| && buf[pos + |Encode(v)|..] == rest
  {
    Limits();
    EncodeComplete(v, rest, 0);
    RoundTripU64(v, rest);
    hide Encode, Decode, Complete;
    assert buf[pos + |Encode(v)|..] == buf[pos..][|Encode(v)|..];
  }

  method ReadImm(buf: seq<Byte>, pos: nat, ghost i: Imm, ghost rest: seq<Byte>) returns (out: Imm, len: nat)
    requires i.Valid() && pos <= |buf| && buf[pos..] == EncodeImm(i) + rest
    ensures out == i && len == |EncodeImm(i)|
    ensures pos + len <= |buf| && buf[pos + len..] == rest
  {
    hide Encode, Decode, Complete;
    ghost var r2 := Encode(i.value.bits) + rest;
    ghost var r1 := Encode(i.value.typeAndSize) + r2;
    assert EncodeImm(i) + rest == Encode(i.attr) + r1;
    ReadCode(buf, pos, i.attr, r1);
    var attr, n := VldecU64(buf, pos);
    ReadCode(buf, pos + n, i.value.typeAndSize, r2);
    var ts, m := VldecU64(buf, pos + n);
    ReadCode(buf, pos + n + m, i.value.bits, rest);
    var bits, k := VldecU64(buf, pos + n + m);
    out, len := Imm(attr, WireVariant(ts, bits)), n + m + k;
  }

  method ReadImms(buf: seq<Byte>, pos: nat, n: nat, ghost imms: seq<Imm>, ghost rest: seq<Byte>) returns (out: seq<Imm>, len: nat)
    requires n <= |imms| && AllValid(imms) && pos <= |buf| && buf[pos..] == EncodeImms(imms) + rest
    ensures out == imms[..n] && len == |EncodeImms(imms[..n])|
  {
    hide EncodeImms, EncodeImm;
    out, len := [], 0;
    EncodeNone();
    assert imms[0..] == imms;
    assert buf[pos + 0..] == buf[pos..];
    for i := 0 to n
      invariant out == imms[..i] && len == |EncodeImms(imms[..i])|
      invariant pos + len <= |buf| && buf[pos + len..] == EncodeImms(imms[i..]) + rest
    {
      ImmsFront(imms, i, rest);
      var v, k := ReadImm(buf, pos + len, imms[i], EncodeImms(imms[i + 1..]) + rest);
      out, len := out + [v], len + k;
    }
  }

  lemma ImmsFront(imms: seq<Imm>, i: nat, rest: seq<Byte>)
    requires i < |imms|
    ensures EncodeImms(imms[i..]) + rest == EncodeImm(imms[i]) + (EncodeImms(imms[i + 1..]) + rest)
    ensures |EncodeImms(imms[..i + 1])| == |EncodeImms(imms[..i])| + |EncodeImm(imms[i])|
  {
    hide EncodeImm;
    assert imms[i..][1..] == imms[i + 1..];
    assert imms[..i + 1] == imms[..i] + [imms[i]];
    EncodeImmsAppend(imms[..i], [imms[i]]);
    EncodeOneImm(imms[i]);
  }

  /** Scans a record for its counts, the position of its immediates and its length. */
  method OpenView(buf: seq<Byte>, base: nat, ghost rec: Rec, ghost rest: seq<Byte>) returns (v: View, inc: nat)
    requires AtRecord(buf, base, rec, rest)
    ensures v == View(base, |rec.ids|, |rec.imms|, 1 + |EncodeIds(rec.ids)|, 1 + |EncodeImms(rec.imms)|)
    ensures inc == |rec.Bytes()| && base + inc <= |buf| && buf[base + inc..] == rest
  {
    hide EncodeIds, EncodeImms;
    RecordLayout(buf, base, rec, rest);
    ghost var tail := [|rec.imms|] + EncodeImms(rec.imms) + rest;
    var numNodes := buf[base];
    var _, n := ReadIds(buf, base + 1, numNodes, rec.ids, tail);
    assert rec.ids[..numNodes] == rec.ids;
    var immPos := 1 + n;
    var numImm := buf[base + immPos];
    var _, m := ReadImms(buf, base + immPos + 1, numImm, rec.imms, rest);
    assert rec.imms[..numImm] == rec.imms;
    v, inc := View(base, numNodes, numImm, immPos, 1 + m), immPos + 1 + m;
  }

  lemma RecordLayout(buf: seq<Byte>, base: nat, rec: Rec, rest: seq<Byte>)
    requires AtRecord(buf, base, rec, rest)
    ensures var n, m := |EncodeIds(rec.ids)|, |EncodeImms(rec.imms)|;
            && base + n + m + 2 <= |buf| && |rec.Bytes()| == n + m + 2
            && buf[base] == |rec.ids| && buf[base + 1..] == EncodeIds(rec.ids) + ([|rec.imms|] + EncodeImms(rec.imms) + rest)
            && buf[base + n + 1] == |rec.imms| && buf[base + n + 2..] == EncodeImms(rec.imms) + rest
            && buf[base + n + m + 2..] == rest
  {
    hide EncodeIds, EncodeImms;
    var s := buf[base..];
    var n := |EncodeIds(rec.ids)|;
    assert buf[base] == s[0] && buf[base + 1..] == s[1..];
    assert buf[base + n + 1] == s[n + 1] && buf[base + n + 2..] == s[n + 2..];
    assert buf[base + n + |EncodeImms(rec.imms)| + 2..] == s[n + |EncodeImms(rec.imms)| + 2..];
  }

  method UnpackNodes(buf: seq<Byte>, v: View, n: nat, ghost rec: Rec, ghost rest: seq<Byte>) returns (ids: seq<nat>)
    requires AtRecord(buf, v.base, rec, rest) && v.numNodes == |rec.ids|
    ensures ids == rec.ids[..if n < |rec.ids| then n else |rec.ids|]
  {
    hide EncodeIds, EncodeImms;
    RecordLayout(buf, v.base, rec, rest);
    var max := if n < v.numNodes then n else v.numNodes;
    var len: nat;
    ids, len := ReadIds(buf, v.base + 1, max, rec.ids, [|rec.imms|] + EncodeImms(rec.imms) + rest);
  }

  method UnpackImmediates(buf: seq<Byte>, v: View, n: nat, ghost rec: Rec, ghost rest: seq<Byte>) returns (imms: seq<Imm>)
    requires AtRecord(buf, v.base, rec, rest) && v.numImm == |rec.imms| && v.immPos == 1 + |EncodeIds(rec.ids)|
    ensures imms == rec.imms[..if n < |rec.imms| then n else |rec.imms|]
  {
    hide EncodeIds, EncodeImms;
    RecordLayout(buf, v.base, rec, rest);
    var max := if n < v.numImm then n else v.numImm;
    var len: nat;
    imms, len := ReadImms(buf, v.base + v.immPos + 1, max, rec.imms, rest);
  }

  method EncodeValueBlock(block: seq<Imm>) returns (tmp: array<Byte>, len: nat)
    requires |block| <= BLOCK && AllValid(block)
    ensures fresh(tmp) && len <= tmp.Length && tmp[..len] == EncodeImms(block)
  {
    hide Overwrite, EncodeImms, EncodeImm, Encode;
    tmp := new Byte[BLOCK * 30](_ => 0);
    len := 0;
    EncodeNone();
    for i := 0 to |block|
      invariant len <= 30 * i && tmp[..len] == EncodeImms(block[..i])
      invariant fresh(tmp) && tmp.Length == BLOCK * 30
    {
      var n := PackImm(block[i], tmp, len);
      EncodeImmsAppend(block[..i], [block[i]]);
      EncodeOneImm(block[i]);
      assert block[..i + 1] == block[..i] + [block[i]];
      len := len + n;
    }
    assert block[..|block|] == block;
  }

  /** Writes attribute id and packed variant of an immediate. */
  method PackImm(i: Imm, buf: array<Byte>, pos: nat) returns (n: nat)
    requires i.Valid() && pos + 30 <= buf.Length
    modifies buf
    ensures n == |EncodeImm(i)| <= 30 && buf[..pos + n] == old(buf[..pos]) + EncodeImm(i)
  {
    hide Encode, EncodeImm;
    ghost var front := buf[..pos];
    n := AppendCode(i.attr, buf, pos);
    var m := AppendCode(i.value.typeAndSize, buf, pos + n);
    n := n + m;
    m := AppendCode(i.value.bits, buf, pos + n);
    n := n + m;
    ThreeParts(front, i);
  }

  method AppendCode(v: nat, buf: array<Byte>, pos: nat) returns (n: nat)
    requires v < U64 && pos + 10 <= buf.Length
    modifies buf
    ensures n == |Encode(v)| <= 10 && buf[..pos + n] == old(buf[..pos]) + Encode(v)
  {
    hide Encode, Overwrite;
    ghost var s := buf[..];
    n := VlencU64(v, buf, pos);
    OverwriteExtends(s, pos, Encode(v));
  }

  lemma ThreeParts(front: seq<Byte>, i: Imm)
    ensures front + EncodeImm(i) == front + Encode(i.attr) + Encode(i.value.typeAndSize) + Encode(i.value.bits)
    ensures |EncodeImm(i)| == |Encode(i.attr)| + |Encode(i.value.typeAndSize)| + |Encode(i.value.bits)|
  {
    hide Encode;
  }

  lemma EncodeOneImm(i: Imm)
    ensures EncodeImms([i]) == EncodeImm(i)
  {
    hide EncodeImm;
    EncodeNone();
    assert [i][1..] == [];
  }

  method EncodeIdBlock(block: seq<nat>) returns (tmp: array<Byte>, len: nat)
    requires |block| <= BLOCK && AllU64(block)
    ensures fresh(tmp) && len <= tmp.Length && tmp[..len] == EncodeIds(block)
  {
    hide Overwrite, EncodeIds, Encode;
    tmp := new Byte[BLOCK * 10](_ => 0);
    len := 0;
    EncodeNone();
    for i := 0 to |block|
      invariant len <= 10 * i && tmp[..len] == EncodeIds(block[..i])
      invariant fresh(tmp) && tmp.Length == BLOCK * 10
    {
      ghost var s := tmp[..];
      var n := VlencU64(block[i], tmp, len);
      OverwriteExtends(s, len, Encode(block[i]));
      EncodeIdsAppend(block[..i], [block[i]]);
      EncodeOne(block[i]);
      assert block[..i + 1] == block[..i] + [block[i]];
      len := len + n;
    }
    assert block[..|block|] == block;
  }

  lemma EncodeOne(id: nat)
    ensures EncodeIds([id]) == Encode(id)
  {
    hide Encode;
    EncodeNone();
    assert [id][1..] == [];
  }

  lemma OverwriteExtends(s: seq<Byte>, pos: nat, bytes: seq<Byte>)
    requires pos + |bytes| <= |s|
    ensures Overwrite(s, pos, bytes)[..pos + |bytes|] == s[..pos] + bytes
  {}

  lemma HoldsBounds(buf: seq<Byte>, ids: seq<nat>, imms: seq<Imm>, immPos: nat, immLen: nat, blocks: nat)
    requires Holds(buf, ids, imms, immPos, immLen, blocks)
    ensures immPos >= 1 && immLen >= 1 && immPos + immLen <= |buf| && |ids| < 128 && |imms| < 128
  {}

  lemma WholeInBuffer(rec: CompressedSnapshotRecord)
    requires rec.Valid() && rec.blocks <= 1
    ensures rec.immPos + rec.immLen <= rec.buffer.Length && Rec(rec.ids, rec.imms).Valid()
    ensures rec.buffer[..rec.immPos + rec.immLen] == Rec(rec.ids, rec.imms).Bytes()
  {
    hide Holds, RecordBytes, LastOk;
    HoldsBounds(rec.buffer[..], rec.ids, rec.imms, rec.immPos, rec.immLen, rec.blocks);
    HoldsRecord(rec.buffer[..], rec.ids, rec.imms, rec.immPos, rec.immLen, rec.blocks);
  }

  // --- Buffers of records

  class SnapshotBuffer {
    var buffer: array<Byte>
    var pos: nat
    var count: nat
    ghost var recs: seq<Rec>

    ghost predicate Valid()
      reads this, buffer
    {
      && count == |recs| && pos <= buffer.Length
      && (forall r | r in recs :: r.Valid())
      && buffer[..pos] == StreamBytes(recs)
    }

    constructor ()
      ensures Valid() && fresh(buffer) && recs == []
    {
      buffer := new Byte[0];
      pos, count, recs := 0, 0, [];
    }

    /** Makes sure that the buffer holds at least min bytes, keeping its contents. */
    method Reserve(min: nat)
      requires pos <= buffer.Length
      modifies this`buffer
      ensures buffer.Length >= min && pos <= buffer.Length && buffer[..pos] == old(buffer[..pos])
      ensures buffer == old(buffer) || fresh(buffer)
    {
      hide Overwrite;
      if min <= buffer.Length {
        return;
      }
      var len := 4096 + min * 2;
      var tmp := new Byte[len](_ => 0);
      ghost var s := tmp[..];
      Memcpy(tmp, 0, buffer, 0, pos);
      OverwriteExtends(s, 0, buffer[0..pos]);
      assert buffer[0..pos] == buffer[..pos] && s[..0] == [];
      buffer := tmp;
    }

    /** Appends the bytes of a finished record. */
    method Append(rec: CompressedSnapshotRecord)
      requires Valid() && rec.Valid() && rec.blocks <= 1 && rec.buffer != buffer
      modifies this, buffer
      ensures Valid() && recs == old(recs) + [Rec(rec.ids, rec.imms)]
      ensures buffer == old(buffer) || fresh(buffer)
    {
      hide Overwrite, CompressedSnapshotRecord.Valid, RecordBytes, StreamBytes, AllU64, AllValid;
      WholeInBuffer(rec);
      ghost var r := Rec(rec.ids, rec.imms);
      var size := rec.Size();
      Reserve(pos + size);
      ghost var s := buffer[..];
      Memcpy(buffer, pos, rec.buffer, 0, size);
      OverwriteExtends(s, pos, rec.buffer[0..size]);
      assert rec.buffer[0..size] == r.Bytes();
      assert s[..pos] == old(buffer[..pos]);
      StreamAppend(recs, r);
      pos := pos + size;
      count := count + 1;
      recs := recs + [r];
    }

    /** Reads all records back, one view after the other. */
    method ReadAll() returns (out: seq<Rec>)
      requires Valid()
      ensures out == recs
    {
      hide RecordBytes, StreamBytes;
      out := [];
      var buf := buffer[..pos];
      var p: nat, i: nat := 0, 0;
      assert recs[0..] == recs && buf[0..] == buf;
      while i < count && p < pos
        invariant i <= count && p <= pos && out == recs[..i] && buf[p..] == StreamBytes(recs[i..])
        decreases count - i
      {
        StreamFront(recs, i);
        ghost var rest := StreamBytes(recs[i + 1..]);
        var v, inc := OpenView(buf, p, recs[i], rest);
        var ids := UnpackNodes(buf, v, 128, recs[i], rest);
        var imms := UnpackImmediates(buf, v, 128, recs[i], rest);
        assert ids == recs[i].ids && imms == recs[i].imms;
        out := out + [Rec(ids, imms)];
        p := p + inc;
        i := i + 1;
      }
      if i < count { StreamFront(recs, i); }
      assert recs[..i] == recs;
    }
  }

  lemma {:induction false} StreamAppend(recs: seq<Rec>, r: Rec)
    requires r.Valid() && forall x | x in recs :: x.Valid()
    ensures forall x | x in recs + [r] :: x.Valid()
    ensures StreamBytes(recs + [r]) == StreamBytes(recs) + r.Bytes()
  {
    hide Rec.Bytes, Rec.Valid;
    if recs == [] {
      assert recs + [r] == [r] && [r][1..] == [];
      assert r.Bytes() + [] == [] + r.Bytes();
    } else {
      assert recs[0] in recs && (recs + [r])[1..] == recs[1..] + [r] && (recs + [r])[0] == recs[0];
      StreamAppend(recs[1..], r);
      var head, rest := recs[0].Bytes(), StreamBytes(recs[1..]);
      assert head + (rest + r.Bytes()) == (head + rest) + r.Bytes();
    }
  }

  lemma StreamFront(recs: seq<Rec>, i: nat)
    requires i < |recs| && forall x | x in recs :: x.Valid()
    ensures recs[i].Valid() && |recs[i].Bytes()| >= 2
    ensures StreamBytes(recs[i..]) == recs[i].Bytes() + StreamBytes(recs[i + 1..])
  {
    assert recs[i] in recs && recs[i..][0] == recs[i] && recs[i..][1..] == recs[i + 1..];
  }

  const NO_RECORD: Rec := Rec([], [])

  /** What arrives of a list of entries that is packed into a record of the usual size. */
  function Arriving(list: seq<WireEntry>): Rec {
    Packed(NO_RECORD, list, INTERNAL_BUFFER)
  }

  function WholeRecord(list: seq<WireEntry>): Rec {
    Rec(Refs(list), Values(list))
  }

  /** Two counts and all codes in at most 512 bytes, and fewer than 128 references and immediates. */
  predicate FitsWire(list: seq<WireEntry>) {
    FitsIn(WholeRecord(list), INTERNAL_BUFFER)
  }

  /** A list arrives whole if and only if it fits. */
  lemma ArrivesWholeIff(list: seq<WireEntry>)
    ensures Arriving(list) == WholeRecord(list) <==> FitsWire(list)
  {
    EncodeNone();
    PackedWholeIff(NO_RECORD, list, INTERNAL_BUFFER);
    assert [] + Refs(list) == Refs(list) && [] + Values(list) == Values(list);
  }

  lemma {:induction false} ImmsLength(imms: seq<Imm>, most: nat)
    requires forall i: nat | i < |imms| :: |EncodeImm(imms[i])| <= most
    ensures |EncodeImms(imms)| <= most * |imms|
  {
    hide EncodeImm;
    if imms != [] {
      assert |EncodeImm(imms[0])| <= most;
      ImmsLength(imms[1..], most);
      assert most * |imms| == most + most * |imms[1..]|;
    }
  }

  lemma {:induction false} EntriesValid(list: seq<WireEntry>)
    requires forall e | e in list :: e.Valid()
    ensures AllU64(Refs(list)) && AllValid(Values(list))
  {
    if list != [] {
      EntriesValid(list[..|list| - 1]);
      assert list[|list| - 1] in list;
    }
  }

  /** Every code of an immediate takes at most this many bytes. */
  ghost predicate AtMost(imms: seq<Imm>, most: nat) {
    forall i: nat | i < |imms| :: |EncodeImm(imms[i])| <= most
  }

  /** A list with at most one reference fits if its values do at their greatest length. */
  lemma BoundedFits(list: seq<WireEntry>, most: nat)
    requires |Refs(list)| <= 1 && (forall e | e in list :: e.Valid()) && AtMost(Values(list), most)
    requires |Values(list)| < 128 && 12 + most * |Values(list)| <= INTERNAL_BUFFER
    ensures FitsWire(list)
  {
    hide EncodeImm, Encode, EncodeImms, Refs, Values;
    var ids, imms := Refs(list), Values(list);
    EntriesValid(list);
    ImmsLength(imms, most);
    if |ids| == 1 {
      RoundTripU64(ids[0], []);
      assert ids == [ids[0]];
      EncodeOne(ids[0]);
    }
  }

  lemma ThirtyAtMost(list: seq<WireEntry>)
    requires forall e | e in list :: e.Valid()
    ensures AtMost(Values(list), 30)
  {
    hide EncodeImm, Refs, Values;
    var imms := Values(list);
    EntriesValid(list);
    forall i: nat | i < |imms| ensures |EncodeImm(imms[i])| <= 30 { ImmRoundTrip(imms[i], []); }
  }

  /** One reference and up to sixteen immediates always fit. */
  lemma SmallFits(list: seq<WireEntry>)
    requires |Refs(list)| <= 1 && |Values(list)| <= 16 && forall e | e in list :: e.Valid()
    ensures FitsWire(list)
  {
    hide Refs, Values, FitsWire, AtMost;
    ThirtyAtMost(list);
    BoundedFits(list, 30);
  }

  // A number under an attribute with an id of at most two bytes; only strings and blobs have a size.
  predicate ShortNumber(i: Imm) {
    i.attr < 16384 && i.value.typeAndSize < 128
  }

  /** It takes at most thirteen bytes. */
  lemma ShortImm(i: Imm)
    requires ShortNumber(i) && i.value.bits < U64
    ensures |EncodeImm(i)| <= 13
  {
    hide Encode;
    EncodeLonger(i.attr);
    EncodeLonger(i.attr / 128);
    EncodeLonger(i.value.typeAndSize);
    RoundTripU64(i.value.bits, []);
  }

  // Nothing more is there than was offered, and if as much is there, then it is all.
  ghost predicate AllOrLess(s: Packing, all: Rec) {
    && |s.rec.ids| + |s.nodes| <= |all.ids| && |s.rec.imms| + |s.values| <= |all.imms|
    && (|s.rec.ids| + |s.nodes| == |all.ids| ==> s.rec.ids + s.nodes == all.ids)
    && (|s.rec.imms| + |s.values| == |all.imms| ==> s.rec.imms + s.values == all.imms)
  }

  lemma PackEntryLess(s: Packing, e: WireEntry, before: Rec, all: Rec, size: nat)
    requires AllOrLess(s, before)
    requires all.ids == before.ids + (if e.Ref? then [e.id] else []) && all.imms == before.imms + if e.Value? then [e.imm] else []
    ensures AllOrLess(PackEntry(s, e, size), all)
  {
    hide FitsIn;
    if e.Ref? {
      assert s.rec.ids + (s.nodes + [e.id]) == (s.rec.ids + s.nodes) + [e.id];
    } else if e.Value? {
      assert s.rec.imms + (s.values + [e.imm]) == (s.rec.imms + s.values) + [e.imm];
    }
  }

  lemma {:induction false} PackListLess(r: Rec, list: seq<WireEntry>, size: nat)
    ensures AllOrLess(PackList(r, list, size), WithAll(r, list))
  {
    hide PackEntry, AllOrLess;
    if list == [] {
      PackNothing(r, size);
    } else {
      var n := |list| - 1;
      EntrySnoc(list, n);
      assert list[..n + 1] == list;
      PackListLess(r, list[..n], size);
      var e := list[n];
      var ids: seq<nat>, imms: seq<Imm> := if e.Ref? then [e.id] else [], if e.Value? then [e.imm] else [];
      assert r.ids + Refs(list) == (r.ids + Refs(list[..n])) + ids && r.imms + Values(list) == (r.imms + Values(list[..n])) + imms;
      PackEntryLess(PackList(r, list[..n], size), e, WithAll(r, list[..n]), WithAll(r, list), size);
    }
  }

  lemma PackNothing(r: Rec, size: nat)
    ensures AllOrLess(PackList(r, [], size), WithAll(r, []))
  {
    assert r.ids + [] == r.ids && r.imms + [] == r.imms;
  }

  /** What does not arrive whole arrives with fewer entries. */
  lemma ArrivesShorter(list: seq<WireEntry>)
    ensures |Arriving(list).ids| <= |Refs(list)| && |Arriving(list).imms| <= |Values(list)|
    ensures |Arriving(list).ids| == |Refs(list)| && |Arriving(list).imms| == |Values(list)| ==> FitsWire(list)
  {
    hide FitsIn, Refs, Values, PackList;
    PackListLess(NO_RECORD, list, INTERNAL_BUFFER);
    ArrivesWholeIff(list);
    var s := PackList(NO_RECORD, list, INTERNAL_BUFFER);
    assert s.rec.ids + [] == s.rec.ids && s.rec.imms + [] == s.rec.imms;
    assert [] + Refs(list) == Refs(list) && [] + Values(list) == Values(list);
  }

  // --- A record that does not arrive whole

  lemma EncodeLonger(v: nat)
    ensures |Encode(v)| == if v < 128 then 1 else 1 + |Encode(v / 128)|
  {
  }

  const UINT_TYPE: nat := 3
  const DOUBLE_TYPE: nat := 6

  // A double of at least 2^-1007, and so every double of at least one, under an attribute with a two-byte id.
  predicate IsDouble(i: Imm) {
    128 <= i.attr < 16384 && i.value.typeAndSize == DOUBLE_TYPE && 0x100_0000_0000_0000 <= i.value.bits < 0x8000_0000_0000_0000
  }

  // A small count under such an attribute.
  predicate IsCount(i: Imm) {
    128 <= i.attr < 16384 && i.value.typeAndSize == UINT_TYPE && i.value.bits < 128
  }

  /** A floating-point value of at least one under an attribute with a two-byte id takes twelve bytes. */
  lemma TwelveBytes(i: Imm)
    requires IsDouble(i)
    ensures |EncodeImm(i)| == 12
  {
    hide Encode;
    EncodeLonger(i.attr);
    EncodeLonger(i.attr / 128);
    EncodeLonger(i.value.typeAndSize);
    NineBytes(i.value.bits);
  }

  lemma NineBytes(v: nat)
    requires 0x100_0000_0000_0000 <= v < 0x8000_0000_0000_0000
    ensures |Encode(v)| == 9
  {
    hide Encode;
    var v1 := v / 128;
    var v2 := v1 / 128;
    var v3 := v2 / 128;
    var v4 := v3 / 128;
    var v5 := v4 / 128;
    var v6 := v5 / 128;
    var v7 := v6 / 128;
    EncodeLonger(v);
    EncodeLonger(v1);
    EncodeLonger(v2);
    EncodeLonger(v3);
    EncodeLonger(v4);
    EncodeLonger(v5);
    EncodeLonger(v6);
    EncodeLonger(v7);
    EncodeLonger(v7 / 128);
  }

  /** A count below 128 under such an attribute takes four bytes. */
  lemma FourBytes(i: Imm)
    requires IsCount(i)
    ensures |EncodeImm(i)| == 4
  {
    hide Encode;
    EncodeLonger(i.attr);
    EncodeLonger(i.attr / 128);
    EncodeLonger(i.value.typeAndSize);
    EncodeLonger(i.value.bits);
  }

  /** So the variance, sum, square sum and count that a variance kernel reports take forty bytes. */
  lemma VarianceBlock(block: seq<Imm>)
    requires |block| == BLOCK && IsDouble(block[0]) && IsDouble(block[1]) && IsDouble(block[2]) && IsCount(block[3])
    ensures |EncodeImms(block)| == 40
  {
    hide EncodeImm, EncodeImms, IsDouble, IsCount;
    TwelveBytes(block[0]);
    TwelveBytes(block[1]);
    TwelveBytes(block[2]);
    FourBytes(block[3]);
    EncodeImmsHead(block);
    EncodeImmsHead(block[1..]);
    EncodeImmsHead(block[2..]);
    EncodeImmsHead(block[3..]);
    assert block[1..][1..] == block[2..] && block[2..][1..] == block[3..] && block[3..][1..] == [];
    EncodeNone();
  }

  lemma EncodeImmsHead(imms: seq<Imm>)
    requires imms != []
    ensures |EncodeImms(imms)| == |EncodeImm(imms[0])| + |EncodeImms(imms[1..])|
  {
  }

  // Every full block of immediates takes len bytes.
  ghost predicate EqualBlocks(imms: seq<Imm>, len: nat) {
    forall q: nat | BLOCK * q + BLOCK <= |imms| :: |EncodeImms(imms[BLOCK * q..BLOCK * q + BLOCK])| == len
  }

  // The reports of variance kernels, one behind the other.
  predicate VarianceReports(imms: seq<Imm>) {
    && |imms| % BLOCK == 0
    && forall i: nat | i < |imms| :: if i % BLOCK == 3 then IsCount(imms[i]) else IsDouble(imms[i])
  }

  lemma ReportsEqual(imms: seq<Imm>)
    requires VarianceReports(imms)
    ensures EqualBlocks(imms, 40)
  {
    hide EncodeImms, IsDouble, IsCount, VarianceReports;
    forall q: nat | BLOCK * q + BLOCK <= |imms| ensures |EncodeImms(imms[BLOCK * q..BLOCK * q + BLOCK])| == 40 {
      ReportAt(imms, BLOCK * q);
      VarianceBlock(imms[BLOCK * q..BLOCK * q + BLOCK]);
    }
  }

  lemma ReportAt(imms: seq<Imm>, n: nat)
    requires VarianceReports(imms) && n % BLOCK == 0 && n + BLOCK <= |imms|
    ensures IsDouble(imms[n]) && IsDouble(imms[n + 1]) && IsDouble(imms[n + 2]) && IsCount(imms[n + 3])
  {
    hide IsDouble, IsCount;
    assert (n + 1) % BLOCK == 1 && (n + 2) % BLOCK == 2 && (n + 3) % BLOCK == 3;
  }

  // The blocks of len bytes that a record takes.
  function Room(len: nat): nat
    requires len > 0
  {
    if 510 / len < 31 then 510 / len else 31
  }

  function BlocksTaken(n: nat, len: nat): nat
    requires len > 0
  {
    if n / BLOCK < Room(len) then n / BLOCK else Room(len)
  }

  lemma MoreBytes(len: nat, a: nat, b: nat)
    requires a <= b
    ensures len * a <= len * b
  {
  }

  lemma WholeBlocks(n: nat, len: nat)
    requires len > 0
    ensures len * (n / len) <= n < len * (n / len + 1)
  {
    assert n == len * (n / len) + n % len;
  }

  lemma RoomMeaning(len: nat, k: nat)
    requires len > 0
    ensures k <= Room(len) <==> 2 + len * k <= INTERNAL_BUFFER && BLOCK * k < 128
  {
    var r := 510 / len;
    WholeBlocks(510, len);
    if k <= r { MoreBytes(len, k, r); } else { MoreBytes(len, r + 1, k); }
  }

  lemma {:induction false} BlocksLength(imms: seq<Imm>, len: nat, k: nat)
    requires EqualBlocks(imms, len) && BLOCK * k <= |imms|
    ensures |EncodeImms(imms[..BLOCK * k])| == len * k
  {
    hide EncodeImms;
    if k == 0 {
      EncodeNone();
    } else {
      var n := BLOCK * (k - 1);
      BlocksLength(imms, len, k - 1);
      assert imms[..BLOCK * k] == imms[..n] + imms[n..n + BLOCK];
      EncodeImmsAppend(imms[..n], imms[n..n + BLOCK]);
    }
  }

  // A reference and then immediates, as records are flushed.
  function Flushed(id: nat, imms: seq<Imm>): seq<WireEntry> {
    [Ref(id)] + seq(|imms|, k requires 0 <= k < |imms| => Value(imms[k]))
  }

  lemma {:induction false} BlocksPack(id: nat, imms: seq<Imm>, len: nat, n: nat)
    requires len > 0 && EqualBlocks(imms, len) && n <= |imms|
    ensures PackList(NO_RECORD, Flushed(id, imms[..n]), INTERNAL_BUFFER)
         == Packing(Rec([], imms[..BLOCK * BlocksTaken(n, len)]), [id], imms[BLOCK * (n / BLOCK)..n])
  {
    hide EqualBlocks, EncodeImms;
    var list := Flushed(id, imms[..n]);
    if n == 0 {
      assert list == [Ref(id)] && list[..0] == [];
      assert PackList(NO_RECORD, list[..0], INTERNAL_BUFFER) == Packing(NO_RECORD, [], []);
    } else {
      assert list[..|list| - 1] == Flushed(id, imms[..n - 1]) && list[|list| - 1] == Value(imms[n - 1]);
      BlocksPack(id, imms, len, n - 1);
      BlocksStep(id, imms, len, n - 1);
    }
  }

  lemma BlocksStep(id: nat, imms: seq<Imm>, len: nat, n: nat)
    requires len > 0 && EqualBlocks(imms, len) && n < |imms|
    ensures PackEntry(Packing(Rec([], imms[..BLOCK * BlocksTaken(n, len)]), [id], imms[BLOCK * (n / BLOCK)..n]), Value(imms[n]), INTERNAL_BUFFER)
         == Packing(Rec([], imms[..BLOCK * BlocksTaken(n + 1, len)]), [id], imms[BLOCK * ((n + 1) / BLOCK)..n + 1])
  {
    hide EqualBlocks, EncodeImms, TakeImms, BlocksTaken;
    var q := n / BLOCK;
    TakenInBlocks(n, len);
    assert imms[BLOCK * q..n] + [imms[n]] == imms[BLOCK * q..n + 1];
    if n + 1 == BLOCK * (q + 1) {
      TakeBlock(imms, len, q);
      assert imms[BLOCK * (q + 1)..n + 1] == [];
    }
  }

  lemma TakenInBlocks(n: nat, len: nat)
    requires len > 0
    ensures BlocksTaken(n, len) == BlocksTaken(BLOCK * (n / BLOCK), len) && BLOCK * BlocksTaken(n, len) <= n
    ensures (n + 1) / BLOCK == n / BLOCK ==> BlocksTaken(n + 1, len) == BlocksTaken(n, len)
    ensures BLOCK * BlocksTaken(n + 1, len) <= n + 1
  {
    hide Room;
  }

  // The next block is taken in as long as there is room.
  lemma TakeBlock(imms: seq<Imm>, len: nat, q: nat)
    requires len > 0 && EqualBlocks(imms, len) && BLOCK * (q + 1) <= |imms|
    ensures TakeImms(Rec([], imms[..BLOCK * BlocksTaken(BLOCK * q, len)]), imms[BLOCK * q..BLOCK * (q + 1)], INTERNAL_BUFFER)
         == Rec([], imms[..BLOCK * BlocksTaken(BLOCK * (q + 1), len)])
  {
    hide EncodeImms, Room;
    var t := BlocksTaken(BLOCK * q, len);
    var taken, block := imms[..BLOCK * t], imms[BLOCK * q..BLOCK * (q + 1)];
    BlocksLength(imms, len, t);
    EncodeImmsAppend(taken, block);
    assert |EncodeImms(block)| == len by { assert block == imms[BLOCK * q..BLOCK * q + BLOCK]; }
    EncodeNone();
    RoomMeaning(len, t + 1);
    assert len * (t + 1) == len * t + len;
    assert t == q ==> taken + block == imms[..BLOCK * (q + 1)];
  }

  /** Of a reference and immediates in full blocks of equal length, exactly the first blocks for which
      there is room arrive, and the reference only if it fits behind them. */
  lemma BlocksArrive(id: nat, imms: seq<Imm>, len: nat)
    requires len > 0 && EqualBlocks(imms, len) && |imms| % BLOCK == 0
    ensures var t := BlocksTaken(|imms|, len);
            Arriving(Flushed(id, imms)) == Rec(if 2 + len * t + |Encode(id)| <= INTERNAL_BUFFER then [id] else [], imms[..BLOCK * t])
  {
    hide EncodeImms, Encode, EqualBlocks, BlocksTaken, TakeIds, TakeImms, PackList, Flushed;
    var t := BlocksTaken(|imms|, len);
    assert imms[..|imms|] == imms;
    BlocksPack(id, imms, len, |imms|);
    WithinRoom(|imms|, len);
    BlocksLength(imms, len, t);
    assert imms[BLOCK * (|imms| / BLOCK)..|imms|] == [];
    ReferenceLast(id, imms[..BLOCK * t]);
  }

  lemma WithinRoom(n: nat, len: nat)
    requires len > 0
    ensures var t := BlocksTaken(n, len); BLOCK * t <= n && BLOCK * t < 128 && 2 + len * t <= INTERNAL_BUFFER
  {
    hide Room;
    RoomMeaning(len, BlocksTaken(n, len));
  }

  // The reference is appended behind the immediates that were taken in.
  lemma ReferenceLast(id: nat, taken: seq<Imm>)
    requires |taken| < 128 && 2 + |EncodeImms(taken)| <= INTERNAL_BUFFER
    ensures TakeImms(TakeIds(Rec([], taken), [id], INTERNAL_BUFFER), [], INTERNAL_BUFFER)
         == Rec(if 2 + |EncodeImms(taken)| + |Encode(id)| <= INTERNAL_BUFFER then [id] else [], taken)
  {
    hide EncodeImms, EncodeIds, Encode;
    EncodeOne(id);
    EncodeNone();
    assert taken + [] == taken && [] + [id] == [id];
  }

  // What thirteen variance kernels report after the values 1.0 and 3.0, under the attributes from 200 on:
  // variance 1.0, sum 4.0, square sum 10.0 and count 2.
  function ThirteenReports(): seq<Imm> {
    seq(52, k requires 0 <= k < 52 => Imm(200 + k, ReportedAs(k % BLOCK)))
  }

  function ReportedAs(k: nat): WireVariant {
    match k
    case 0 => WireVariant(DOUBLE_TYPE, 0x3FF0_0000_0000_0000)
    case 1 => WireVariant(DOUBLE_TYPE, 0x4010_0000_0000_0000)
    case 2 => WireVariant(DOUBLE_TYPE, 0x4024_0000_0000_0000)
    case _ => WireVariant(UINT_TYPE, 2)
  }

  /** The report of the thirteenth kernel is dropped. */
  lemma ThirteenthDropped(id: nat)
    requires id < U64
    ensures !FitsWire(Flushed(id, ThirteenReports()))
    ensures Arriving(Flushed(id, ThirteenReports())) == Rec([id], ThirteenReports()[..48])
  {
    hide EncodeImms, Encode, EqualBlocks, FitsWire, Arriving;
    var imms := ThirteenReports();
    assert VarianceReports(imms);
    ReportsEqual(imms);
    BlocksArrive(id, imms, 40);
    RoundTripU64(id, []);
    FlushedParts(id, imms);
    ArrivesWholeIff(Flushed(id, imms));
  }

  lemma FlushedParts(id: nat, imms: seq<Imm>)
    ensures Refs(Flushed(id, imms)) == [id] && Values(Flushed(id, imms)) == imms
  {
    FlushedUpTo(id, imms, |imms|);
    assert Flushed(id, imms)[..1 + |imms|] == Flushed(id, imms) && imms[..|imms|] == imms;
  }

  lemma {:induction false} FlushedUpTo(id: nat, imms: seq<Imm>, n: nat)
    requires n <= |imms|
    ensures Refs(Flushed(id, imms)[..1 + n]) == [id] && Values(Flushed(id, imms)[..1 + n]) == imms[..n]
  {
    hide Refs, Values;
    var list := Flushed(id, imms);
    EntrySnoc(list, n);
    if n == 0 {
      assert list[..0] == [];
      NoEntries();
    } else {
      FlushedUpTo(id, imms, n - 1);
      assert list[n] == Value(imms[n - 1]);
    }
  }

  /** A new record with the entries of a list. */
  method PackRecord(list: seq<WireEntry>) returns (rec: CompressedSnapshotRecord, dropped: nat)
    requires (forall e | e in list :: e.Valid()) && |Refs(list)| <= BLOCK
    ensures fresh(rec) && fresh(rec.buffer) && rec.Valid() && rec.blocks <= 1 && Rec(rec.ids, rec.imms) == Arriving(list)
    ensures dropped == 0 <==> FitsWire(list)
  {
    hide EncodeIds, EncodeImms, Refs, Values, Holds, FitsIn, Packed, LastOk;
    rec := new CompressedSnapshotRecord(INTERNAL_BUFFER);
    assert rec.Taken() == NO_RECORD;
    dropped := rec.AppendEntries(list);
    assert WithAll(NO_RECORD, list) == WholeRecord(list);
  }

  /** From entry lists to bytes and back, with at most four references per list: each list comes back
      as what was taken in of it, and nothing is dropped exactly if every list fits. */
  method SendAndReceive(lists: seq<seq<WireEntry>>) returns (out: seq<Rec>, dropped: nat)
    requires forall l | l in lists :: (forall e | e in l :: e.Valid()) && |Refs(l)| <= BLOCK
    ensures |out| == |lists| && forall i: nat | i < |lists| :: out[i] == Arriving(lists[i])
    ensures dropped == 0 <==> forall i: nat | i < |lists| :: FitsWire(lists[i])
  {
    hide Refs, FitsWire, Arriving, CompressedSnapshotRecord.Valid, StreamBytes;
    var buf := new SnapshotBuffer();
    dropped := 0;
    for i := 0 to |lists|
      invariant buf.Valid() && fresh(buf) && fresh(buf.buffer) && |buf.recs| == i
      invariant forall j: nat | j < i :: buf.recs[j] == Arriving(lists[j])
      invariant dropped == 0 <==> forall j: nat | j < i :: FitsWire(lists[j])
    {
      assert lists[i] in lists;
      var rec, d := PackRecord(lists[i]);
      dropped := dropped + d;
      buf.Append(rec);
    }
    out := buf.ReadAll();
  }

  // --- More than four references

  /** The first id read is the first id of the last block copied in. */
  lemma FirstRead(buf: seq<Byte>, ids: seq<nat>, blocks: nat, last: seq<nat>, end: nat)
    requires LastOk(buf, ids, blocks, last) && blocks > 0 && AllU64(ids) && |ids| < 128 && buf[0] == |ids|
    requires 1 + |EncodeIds(ids)| <= end <= |buf|
    ensures var read := ParseRecord(buf[..end]).0; read == [] || read[0] == last[0]
  {
    hide EncodeIds, Encode, Decode;
    var s := buf[..end];
    LastLength(ids, last);
    var len := |EncodeIds(last)|;
    assert s[1..] == buf[1..1 + len] + buf[1 + len..end];
    IdsFront(last, 0, buf[1 + len..end]);
    assert last[0..] == last && last[0] == ids[|ids| - |last|];
    RoundTripU64(last[0], EncodeIds(last[1..]) + buf[1 + len..end]);
  }

  /** For pairwise different ids of any size and any immediates, however they were appended: the ids
      read back in order if and only if they were copied in as one block. */
  lemma ReadsBackIff(buf: seq<Byte>, ids: seq<nat>, imms: seq<Imm>, immPos: nat, immLen: nat, blocks: nat, last: seq<nat>)
    requires Holds(buf, ids, imms, immPos, immLen, blocks) && LastOk(buf, ids, blocks, last)
    requires AllU64(ids) && AllValid(imms) && Distinct(ids)
    ensures ParseRecord(buf[..immPos + immLen]).0 == ids <==> blocks <= 1
  {
    hide EncodeIds, EncodeImms, ParseRecord;
    if blocks <= 1 {
      HoldsRecord(buf, ids, imms, immPos, immLen, blocks);
      RecordRoundTrip(ids, imms, []);
      assert RecordBytes(ids, imms) + [] == RecordBytes(ids, imms);
    } else {
      FirstRead(buf, ids, blocks, last, immPos + immLen);
      assert last[0] == ids[|ids| - |last|];
    }
  }

  /** A record packed from any interleaving of references and immediates that fits: its pairwise
      different references read back in order if and only if there are at most four. */
  method PackAndParse(list: seq<WireEntry>) returns (read: seq<nat>)
    requires (forall e | e in list :: e.Valid()) && FitsWire(list) && Distinct(Refs(list))
    ensures read == Refs(list) <==> |Refs(list)| <= BLOCK
  {
    hide EncodeIds, EncodeImms, Refs, Values, Holds, FitsIn, Packed, ParseRecord;
    var rec := new CompressedSnapshotRecord(INTERNAL_BUFFER);
    assert rec.Taken() == NO_RECORD;
    assert WithAll(NO_RECORD, list) == WholeRecord(list);
    var d := rec.AppendEntries(list);
    HoldsBounds(rec.buffer[..], rec.ids, rec.imms, rec.immPos, rec.immLen, rec.blocks);
    ReadsBackIff(rec.buffer[..], rec.ids, rec.imms, rec.immPos, rec.immLen, rec.blocks, rec.last);
    read := ParseRecord(rec.buffer[..][..rec.Size()]).0;
  }

  /** The bytes of the node section are one-byte codes, and byte 5 is zero once it belongs to it. */
  ghost predicate OneByteNodes(buf: seq<Byte>, immPos: nat) {
    && 1 <= immPos && immPos + 1 <= |buf|
    && (forall i: nat | 1 <= i < immPos :: buf[i] < 128)
    && (forall i: nat | immPos <= i < |buf| :: buf[i] == 0)
    && (immPos >= 5 ==> buf[5] == 0)
  }

  // The count byte of the still empty immediates, at byte 5 after the first full block, is left
  // behind by the next block and never overwritten.
  lemma StaleByteStep(buf: seq<Byte>, immPos: nat, block: seq<nat>, total: Byte)
    requires OneByteNodes(buf, immPos) && 0 < |block| <= BLOCK && EncodeIds(block) == block && immPos + 1 + |block| <= |buf|
    requires (forall i: nat | i < |block| :: 0 < block[i] < 128) && (immPos == 1 || immPos >= 5)
    ensures var next := NodeBlockCopy(buf, immPos, 1, block, total);
            |next| == |buf| && next[0] == total && OneByteNodes(next, immPos + |block|)
  {
    hide EncodeIds, Overwrite;
    var moved := Overwrite(buf, immPos + |block|, buf[immPos..immPos + 1]);
    forall i: nat | 1 <= i < |buf|
      ensures NodeBlockCopy(buf, immPos, 1, block, total)[i] == if i <= |block| then block[i - 1]
                                                                 else if i == immPos + |block| then 0 else buf[i]
    {
      OverwriteAt(buf, immPos + |block|, buf[immPos..immPos + 1], i);
      OverwriteAt(moved, 1, block, i);
    }
  }

  lemma {:induction false} StaleByte(buf: seq<Byte>, immPos: nat, done: nat, ids: seq<nat>)
    requires OneByteNodes(buf, immPos) && immPos == 1 + done && (done % BLOCK == 0 || ids == [])
    requires immPos + 1 + |ids| <= |buf| && done + |ids| < 128 && buf[0] == done
    requires forall i: nat | i < |ids| :: 0 < ids[i] < 128
    ensures NodesFit(immPos, 1, done, ids, |buf|)
    ensures var out := NodesCopied(buf, immPos, 1, done, ids);
            |out| == |buf| && out[0] == done + |ids| && OneByteNodes(out, immPos + |ids|)
    decreases |ids|
  {
    hide EncodeIds, NodeBlockCopy, OneByteNodes, NodesFit, NodesCopied;
    OneByteIds(ids);
    OneByteFacts(buf, immPos);
    if ids == [] {
      NoNodes(buf, immPos, 1, done, ids);
    } else {
      var blk := BlockSize(ids);
      OneByteIds(ids[..blk]);
      StaleByteStep(buf, immPos, ids[..blk], done + blk);
      StaleByte(NodeBlockCopy(buf, immPos, 1, ids[..blk], done + blk), immPos + blk, done + blk, ids[blk..]);
      NodesAhead(buf, immPos, 1, done, ids);
    }
  }

  lemma OneByteFacts(buf: seq<Byte>, immPos: nat)
    requires OneByteNodes(buf, immPos)
    ensures 1 <= immPos && immPos + 1 <= |buf|
  {
  }

  lemma NoNodes(buf: seq<Byte>, immPos: nat, immLen: nat, done: nat, ids: seq<nat>)
    requires ids == [] && immPos >= 1 && done < 128 && immPos + immLen <= |buf| && |buf| > 0
    ensures NodesFit(immPos, immLen, done, ids, |buf|) && NodesCopied(buf, immPos, immLen, done, ids) == buf
  {
    EncodeNone();
  }

  // One block and then the others.
  lemma NodesAhead(buf: seq<Byte>, immPos: nat, immLen: nat, done: nat, ids: seq<nat>)
    requires ids != [] && immPos >= 1 && done + |ids| < 128 && immPos + immLen + |EncodeIds(ids)| <= |buf|
    requires var blk := BlockSize(ids);
             && immPos + immLen + |EncodeIds(ids[..blk])| <= |buf|
             && NodesFit(immPos + |EncodeIds(ids[..blk])|, immLen, done + blk, ids[blk..], |buf|)
    ensures var blk := BlockSize(ids);
            && NodesFit(immPos, immLen, done, ids, |buf|)
            && NodesCopied(buf, immPos, immLen, done, ids)
               == NodesCopied(NodeBlockCopy(buf, immPos, immLen, ids[..blk], done + blk),
                              immPos + |EncodeIds(ids[..blk])|, immLen, done + blk, ids[blk..])
  {
    hide EncodeIds, NodeBlockCopy;
  }

  /** For node ids of one byte and no immediates, a record reads back as the ids appended to it exactly
      when there are at most four: with five or more, an id is lost even up to order. */
  lemma ReferencesReadBackIff(ids: seq<nat>, buf: seq<Byte>)
    requires |ids| < 128 && forall i: nat | i < |ids| :: 0 < ids[i] < 128
    requires |ids| + 2 <= |buf| && forall i: nat | i < |buf| :: buf[i] == 0
    ensures NodesFit(1, 1, 0, ids, |buf|)
    ensures var out := NodesCopied(buf, 1, 1, 0, ids);
            && (ParseRecord(out[..2 + |ids|]).0 == ids <==> |ids| <= BLOCK)
            && (|ids| > BLOCK ==> multiset(ParseRecord(out[..2 + |ids|]).0) != multiset(ids))
  {
    hide EncodeIds, NodeBlockCopy, ParseRecord, NodesCopied, NodesFit, OneByteNodes;
    FreshBuffer(buf);
    StaleByte(buf, 1, 0, ids);
    var n := |ids|;
    var out := NodesCopied(buf, 1, 1, 0, ids);
    ReadBack(out, n);
    if n > BLOCK {
      ZeroDiffers(out[1..1 + n], 4, ids);
    } else {
      FewReferences(ids, buf);
    }
  }

  lemma FreshBuffer(buf: seq<Byte>)
    requires |buf| >= 2 && forall i: nat | i < |buf| :: buf[i] == 0
    ensures OneByteNodes(buf, 1) && buf[0] == 0
  {
  }

  /** What is read from a buffer of one-byte ids. */
  lemma ReadBack(out: seq<Byte>, n: nat)
    requires n < 128 && n + 2 <= |out| && out[0] == n && OneByteNodes(out, 1 + n)
    ensures ParseRecord(out[..2 + n]).0 == out[1..1 + n]
    ensures n > BLOCK ==> out[1..1 + n][4] == 0
  {
    hide ParseRecord;
    RecordShape(out, n);
    OneByteRecord(out[..2 + n], out[1..1 + n]);
  }

  lemma RecordShape(out: seq<Byte>, n: nat)
    requires n + 2 <= |out| && out[0] == n && out[n + 1] == 0
    ensures out[..2 + n] == [n] + out[1..1 + n] + [0]
  {
    var a, b := out[..2 + n], [n] + out[1..1 + n] + [0];
    assert |a| == |b|;
    forall i: nat | i < |a| ensures a[i] == b[i] {
      if 1 <= i <= n { assert b[i] == out[1..1 + n][i - 1]; }
    }
  }

  lemma ZeroDiffers(read: seq<nat>, i: nat, ids: seq<nat>)
    requires i < |read| && read[i] == 0 && forall j: nat | j < |ids| :: 0 < ids[j] < 128
    ensures multiset(read) != multiset(ids)
  {
    assert 0 in read && 0 !in ids;
    assert 0 in multiset(read) && 0 !in multiset(ids);
  }

  lemma FewReferences(ids: seq<nat>, buf: seq<Byte>)
    requires |ids| <= BLOCK && forall i: nat | i < |ids| :: 0 < ids[i] < 128
    requires |ids| + 2 <= |buf| && NodesFit(1, 1, 0, ids, |buf|)
    ensures |NodesCopied(buf, 1, 1, 0, ids)| == |buf| && NodesCopied(buf, 1, 1, 0, ids)[1..1 + |ids|] == ids
  {
    hide EncodeIds;
    OneByteIds(ids);
    OneByteIds([]);
    if ids != [] {
      assert ids[..|ids|] == ids && ids[|ids|..] == [];
    }
  }

  lemma {:induction false} OneByteIds(ids: seq<nat>)
    requires forall i: nat | i < |ids| :: ids[i] < 128
    ensures EncodeIds(ids) == ids
  {
    if ids != [] {
      OneByteIds(ids[1..]);
      assert ids == [ids[0]] + ids[1..];
    }
  }

  lemma OneByteRecord(s: seq<Byte>, ids: seq<nat>)
    requires |ids| < 128 && (forall i: nat | i < |ids| :: ids[i] < 128) && s == [|ids|] + ids + [0]
    ensures ParseRecord(s).0 == ids
  {
    OneByteIds(ids);
    assert s == RecordBytes(ids, []) + [];
    RecordRoundTrip(ids, [], []);
  }
}
