/** Tree nodes on the wire: id with a has-parent flag, attribute, parent, type, size and raw data. */
module NodeBuffers {
  import opened Vlenc
  import SnapshotRecords

  const NO_ID: nat := U64 - 1
  const MAX_TYPE: nat := 9

  datatype NodeInfo = NodeInfo(id: nat, attr: nat, parent: nat, typ: nat, data: seq<Byte>) {
    predicate Valid() {
      id < U64 && attr < U64 && parent < U64 && typ <= MAX_TYPE && |data| < U64
    }
  }

  // --- Wire format

  function HasParent(i: NodeInfo): bool { i.parent != NO_ID }

  // Id and flag share one 64-bit word.
  function IdWord(i: NodeInfo): nat {
    (2 * i.id + if HasParent(i) then 1 else 0) % U64
  }

  function Header(i: NodeInfo): seq<Byte> {
    Encode(IdWord(i)) + Encode(i.attr) + (if HasParent(i) then Encode(i.parent) else [])
    + Encode(i.typ) + Encode(|i.data|)
  }

  function PackNode(i: NodeInfo): seq<Byte> {
    Header(i) + i.data
  }

  // Reads one code off the front: its value and the remaining bytes.
  function Take(s: seq<Byte>): (nat, seq<Byte>) {
    var (v, n) := Decode(s, 0);
    (v, if n <= |s| then s[n..] else [])
  }

  /** What unpacking makes of the bytes at the front of s, and the bytes after it. */
  function UnpackNode(s: seq<Byte>): (NodeInfo, seq<Byte>) {
    var (u, s1) := Take(s);
    var (attr, s2) := Take(s1);
    var (parent, s3) := if u % 2 == 1 then Take(s2) else (NO_ID, s2);
    var (t, s4) := Take(s3);
    var (size, s5) := Take(s4);
    var typ := if t <= MAX_TYPE then t else 0;
    if size <= |s5| then (NodeInfo(u / 2, attr, parent, typ, s5[..size]), s5[size..])
    else (NodeInfo(u / 2, attr, parent, typ, s5), [])
  }

  lemma TakeFront(v: nat, rest: seq<Byte>)
    requires v < U64
    ensures Take(Encode(v) + rest) == (v, rest) && |Encode(v)| <= 10
  {
    hide Encode, Decode;
    RoundTripU64(v, rest);
    assert (Encode(v) + rest)[|Encode(v)|..] == rest;
  }

  // The parts of a packed node, as nested remainders.
  lemma Parts(i: NodeInfo, rest: seq<Byte>)
    ensures PackNode(i) + rest == Encode(IdWord(i)) + (Encode(i.attr) +
              ((if HasParent(i) then Encode(i.parent) else []) + (Encode(i.typ) + (Encode(|i.data|) + (i.data + rest)))))
  {
    hide Encode, IdWord;
  }

  lemma PackedReads(i: NodeInfo, rest: seq<Byte>)
    requires i.Valid()
    ensures UnpackNode(PackNode(i) + rest) == (i.(id := IdWord(i) / 2), rest)
    ensures |PackNode(i)| <= 50 + |i.data|
  {
    hide Encode, Take, IdWord, PackNode;
    Parts(i, rest);
    Parts(i, []);
    WordFlag(i);
    var r5 := i.data + rest;
    var r4 := Encode(|i.data|) + r5;
    var r3 := Encode(i.typ) + r4;
    var r2 := (if HasParent(i) then Encode(i.parent) else []) + r3;
    TakeFront(IdWord(i), Encode(i.attr) + r2);
    TakeFront(i.attr, r2);
    if HasParent(i) {
      TakeFront(i.parent, r3);
    } else {
      assert r2 == r3;
    }
    TakeFront(i.typ, r4);
    TakeFront(|i.data|, r5);
    assert r5[..|i.data|] == i.data && r5[|i.data|..] == rest;
  }

  lemma WordFlag(i: NodeInfo)
    requires i.Valid()
    ensures IdWord(i) < U64 && (IdWord(i) % 2 == 1 <==> HasParent(i)) && (IdWord(i) / 2 == i.id <==> i.id < U64 / 2)
  {}

  /** A node reads back exactly when its id leaves room for the flag, whatever follows it. */
  lemma NodeRoundTripIff(i: NodeInfo, rest: seq<Byte>)
    requires i.Valid()
    ensures UnpackNode(PackNode(i) + rest) == (i, rest) <==> i.id < U64 / 2
  {
    hide PackNode, UnpackNode, IdWord;
    WordFlag(i);
    PackedReads(i, rest);
  }

  // --- The buffer

  function NodeStream(infos: seq<NodeInfo>): seq<Byte> {
    if infos == [] then [] else PackNode(infos[0]) + NodeStream(infos[1..])
  }

  lemma {:induction false} NodeStreamAppend(infos: seq<NodeInfo>, i: NodeInfo)
    ensures NodeStream(infos + [i]) == NodeStream(infos) + PackNode(i)
  {
    hide PackNode;
    if infos == [] {
      assert infos + [i] == [i] && [i][1..] == [];
    } else {
      assert (infos + [i])[1..] == infos[1..] + [i];
      NodeStreamAppend(infos[1..], i);
    }
  }

  lemma NodeStreamFront(infos: seq<NodeInfo>, k: nat)
    requires k < |infos|
    ensures NodeStream(infos[k..]) == PackNode(infos[k]) + NodeStream(infos[k + 1..])
    ensures |PackNode(infos[k])| > 0
  {
    assert infos[k..][0] == infos[k] && infos[k..][1..] == infos[k + 1..];
  }

  /** Writes v at pos: the buffer up to there grows by its code. */
  method PutCode(v: nat, buf: array<Byte>, pos: nat) returns (n: nat)
    requires v < U64 && pos + 10 <= buf.Length
    modifies buf
    ensures n == |Encode(v)| <= 10 && buf[..pos + n] == old(buf[..pos]) + Encode(v)
  {
    hide Overwrite, Encode;
    ghost var s := buf[..];
    n := VlencU64(v, buf, pos);
    SnapshotRecords.OverwriteExtends(s, pos, Encode(v));
  }

  method PutBytes(bytes: seq<Byte>, buf: array<Byte>, pos: nat)
    requires pos + |bytes| <= buf.Length
    modifies buf
    ensures buf[..pos + |bytes|] == old(buf[..pos]) + bytes
  {
    for i := 0 to |bytes|
      invariant buf[..pos + i] == old(buf[..pos]) + bytes[..i]
    {
      buf[pos + i] := bytes[i];
      assert buf[..pos + i + 1] == buf[..pos + i] + [bytes[i]];
    }
    assert bytes[..|bytes|] == bytes;
  }

  /** Packs a node into the buffer at pos. */
  method PutNode(i: NodeInfo, buf: array<Byte>, pos: nat) returns (n: nat)
    requires i.Valid() && pos + 50 + |i.data| <= buf.Length
    modifies buf
    ensures n == |PackNode(i)| && pos + n <= buf.Length && buf[..pos + n] == old(buf[..pos]) + PackNode(i)
  {
    hide Encode, IdWord, PackNode, HasParent;
    PackedReads(i, []);
    FrontParts(buf[..pos], i);
    n := PutWords(i, buf, pos);
    n := PutTail(i, buf, pos, n);
  }

  // Type, size and data after the first n bytes of the node.
  method PutTail(i: NodeInfo, buf: array<Byte>, pos: nat, n: nat) returns (r: nat)
    requires i.Valid() && n <= 30 && pos + 50 + |i.data| <= buf.Length
    modifies buf
    ensures pos + r <= buf.Length
    ensures buf[..pos + r] == old(buf[..pos + n]) + Encode(i.typ) + Encode(|i.data|) + i.data
  {
    hide Encode;
    var k := PutCode(i.typ, buf, pos + n);
    r := n + k;
    k := PutCode(|i.data|, buf, pos + r);
    r := r + k;
    PutBytes(i.data, buf, pos + r);
    r := r + |i.data|;
  }

  // The words before type, size and data.
  method PutWords(i: NodeInfo, buf: array<Byte>, pos: nat) returns (n: nat)
    requires i.Valid() && pos + 30 <= buf.Length
    modifies buf
    ensures n <= 30
    ensures buf[..pos + n] == old(buf[..pos]) + Encode(IdWord(i)) + Encode(i.attr) + (if HasParent(i) then Encode(i.parent) else [])
  {
    hide Encode, IdWord;
    WordFlag(i);
    n := PutCode(IdWord(i), buf, pos);
    var k := PutCode(i.attr, buf, pos + n);
    n := n + k;
    if HasParent(i) {
      k := PutCode(i.parent, buf, pos + n);
      n := n + k;
    }
  }

  lemma FrontParts(front: seq<Byte>, i: NodeInfo)
    ensures front + PackNode(i) == front + Encode(IdWord(i)) + Encode(i.attr) +
      (if HasParent(i) then Encode(i.parent) else []) + Encode(i.typ) + Encode(|i.data|) + i.data
  {
    hide Encode, IdWord;
  }

  /** Reads one node at pos, given that the buffer continues with info and then rest. */
  method GetNode(buf: seq<Byte>, pos: nat, ghost info: NodeInfo, ghost rest: seq<Byte>) returns (out: NodeInfo, inc: nat)
    requires info.Valid() && info.id < U64 / 2 && pos <= |buf| && buf[pos..] == PackNode(info) + rest
    ensures out == info && inc == |PackNode(info)| && pos + inc <= |buf| && buf[pos + inc..] == rest
  {
    hide Encode, Decode, Complete, IdWord, PackNode;
    WordFlag(info);
    Parts(info, rest);
    Parts(info, []);
    ghost var r5 := info.data + rest;
    ghost var r4 := Encode(|info.data|) + r5;
    ghost var r3 := Encode(info.typ) + r4;
    ghost var r2 := (if HasParent(info) then Encode(info.parent) else []) + r3;
    var u := GetCode(buf, pos, IdWord(info), Encode(info.attr) + r2);
    var attr := GetCode(buf, u.1, info.attr, r2);
    var parent := (NO_ID, attr.1);
    if u.0 % 2 == 1 {
      parent := GetCode(buf, attr.1, info.parent, r3);
    } else {
      assert r2 == r3;
    }
    var t := GetCode(buf, parent.1, info.typ, r4);
    var size := GetCode(buf, t.1, |info.data|, r5);
    var end := size.1 + size.0;
    assert buf[size.1..end] == buf[size.1..][..size.0] == info.data;
    assert buf[end..] == buf[size.1..][size.0..] == rest;
    out := NodeInfo(u.0 / 2, attr.0, parent.0, if t.0 <= MAX_TYPE then t.0 else 0, buf[size.1..end]);
    inc := end - pos;
    assert |buf[pos..]| == |PackNode(info)| + |rest|;
  }

  // Value of the code at pos and the position after it.
  method GetCode(buf: seq<Byte>, pos: nat, ghost v: nat, ghost rest: seq<Byte>) returns (r: (nat, nat))
    requires v < U64 && pos <= |buf| && buf[pos..] == Encode(v) + rest
    ensures r == (v, pos + |Encode(v)|) && r.1 <= |buf| && buf[r.1..] == rest
  {
    hide Encode, Decode, Complete;
    SnapshotRecords.ReadCode(buf, pos, v, rest);
    var x, n := VldecU64(buf, pos);
    r := (x, pos + n);
  }

  class NodeBuffer {
    var buffer: array<Byte>
    var pos: nat
    var count: nat
    ghost var infos: seq<NodeInfo>

    ghost predicate Valid()
      reads this, buffer
    {
      && count == |infos| && pos <= buffer.Length && buffer[..pos] == NodeStream(infos)
      && forall i: nat | i < |infos| :: infos[i].Valid()
    }

    constructor ()
      ensures Valid() && fresh(buffer) && infos == []
    {
      buffer := new Byte[0];
      pos, count, infos := 0, 0, [];
    }

    /** Makes sure that the buffer holds at least min bytes, keeping its contents. */
    method Reserve(min: nat)
      requires pos <= buffer.Length
      modifies this`buffer
      ensures buffer.Length >= min && pos <= buffer.Length && buffer[..pos] == old(buffer[..pos])
      ensures buffer == old(buffer) || fresh(buffer)
    {
      if min <= buffer.Length {
        return;
      }
      var tmp := new Byte[4096 + min * 2](_ => 0);
      PutBytes(buffer[..pos], tmp, 0);
      assert tmp[..0] == [];
      buffer := tmp;
    }

    method Append(info: NodeInfo)
      requires Valid() && info.Valid()
      modifies this, buffer
      ensures Valid() && infos == old(infos) + [info]
      ensures buffer == old(buffer) || fresh(buffer)
    {
      hide PackNode, NodeStream;
      Reserve(pos + 50 + |info.data|);
      var n := PutNode(info, buffer, pos);
      NodeStreamAppend(infos, info);
      pos := pos + n;
      count := count + 1;
      infos := infos + [info];
    }

    /** Visits the packed nodes in order. */
    method ReadAll() returns (out: seq<NodeInfo>)
      requires Valid() && forall i: nat | i < |infos| :: infos[i].id < U64 / 2
      ensures out == infos
    {
      hide PackNode, NodeStream;
      out := [];
      var buf := buffer[..pos];
      var p: nat, i: nat := 0, 0;
      assert infos[0..] == infos && buf[0..] == buf;
      while i < count && p < pos
        invariant i <= count && p <= pos && out == infos[..i] && buf[p..] == NodeStream(infos[i..])
        decreases count - i
      {
        NodeStreamFront(infos, i);
        var info, inc := GetNode(buf, p, infos[i], NodeStream(infos[i + 1..]));
        out := out + [info];
        p := p + inc;
        i := i + 1;
      }
      if i < count { NodeStreamFront(infos, i); }
      assert infos[..i] == infos;
    }
  }
}
