/** The open-addressing hash table with tombstones and a linked list through its entries. */
module HashTables {
  import opened Common

  type Key = string
  type Data = nat

  datatype Status = Empty | Tombstone | InUse

  datatype Link = Nil | At(slot: nat)

  datatype Cell = Cell(status: Status, key: Key, data: Data, hash: int, next: Link, prev: Link)

  const BLANK: Cell := Cell(Empty, "", 0, 0, Nil, Nil)

  // ----- Probing -----

  /** The hash value is a signed int that is extended to an unsigned long. */
  function Home(hash: int, size: nat): (h: nat)
    requires size > 0
    ensures h < size
  {
    (if hash < 0 then hash + 0x1_0000_0000_0000_0000 else hash) % size
  }

  function Probe(home: nat, d: nat, size: nat): nat
    requires home < size && d < size
  {
    if home + d < size then home + d else home + d - size
  }

  function Distance(home: nat, i: nat, size: nat): (d: nat)
    requires home < size && i < size
    ensures d < size && Probe(home, d, size) == i
  {
    if i >= home then i - home else i - home + size
  }

  ghost predicate Reachable(cells: seq<Cell>, i: nat)
    requires i < |cells|
  {
    var home := Home(cells[i].hash, |cells|);
    forall d: nat | d < Distance(home, i, |cells|) :: cells[Probe(home, d, |cells|)].status != Empty
  }

  /** Every entry is found by probing from its home: no empty cell comes before it. */
  ghost predicate ProbesOk(cells: seq<Cell>, hash: Key -> int) {
    forall i: nat | i < |cells| && cells[i].status == InUse :: cells[i].hash == hash(cells[i].key) && Reachable(cells, i)
  }

  // ----- The list -----

  function LinkAt(order: seq<nat>, k: int): Link {
    if 0 <= k < |order| then At(order[k]) else Nil
  }

  /** The list runs through exactly the cells in use, linked both ways. */
  ghost predicate ListOk(cells: seq<Cell>, order: seq<nat>, head: Link) {
    && Distinct(order) && head == LinkAt(order, 0) && Members(cells, order)
    && (forall k: nat | k < |order| :: Linked(cells, order, k))
  }

  ghost predicate Members(cells: seq<Cell>, order: seq<nat>) {
    && (forall k: nat | k < |order| :: order[k] < |cells| && cells[order[k]].status == InUse)
    && (forall i: nat | i < |cells| && cells[i].status == InUse :: i in order)
  }

  ghost predicate Linked(cells: seq<Cell>, order: seq<nat>, k: nat)
    requires k < |order| && order[k] < |cells|
  {
    cells[order[k]].next == LinkAt(order, k + 1) && cells[order[k]].prev == LinkAt(order, k - 1)
  }

  ghost predicate Rep(cells: seq<Cell>, hash: Key -> int, order: seq<nat>, head: Link, count: nat) {
    |cells| > 0 && ProbesOk(cells, hash) && ListOk(cells, order, head) && count == |order|
  }

  // The entries in list order.
  function Contents(cells: seq<Cell>, order: seq<nat>): (r: seq<(Key, Data)>)
    requires forall k: nat | k < |order| :: order[k] < |cells|
    ensures |r| == |order| && forall k: nat | k < |order| :: r[k] == (cells[order[k]].key, cells[order[k]].data)
  {
    seq(|order|, k requires 0 <= k < |order| && order[k] < |cells| => (cells[order[k]].key, cells[order[k]].data))
  }

  lemma {:induction false} Pigeonhole(order: seq<nat>, size: nat)
    requires Distinct(order) && forall i: nat | i < size :: i in order
    ensures |order| >= size
  {
    if size > 0 {
      assert size - 1 in order;
      var k: nat :| k < |order| && order[k] == size - 1;
      var rest := order[..k] + order[k + 1..];
      forall i: nat | i < size - 1 ensures i in rest {
        assert i in order;
        var j: nat :| j < |order| && order[j] == i;
        assert i == if j < k then rest[j] else rest[j - 1];
      }
      assert Distinct(rest) by {
        forall i: nat, j: nat | i < j < |rest| ensures rest[i] != rest[j] {
          assert rest[i] == order[if i < k then i else i + 1] && rest[j] == order[if j < k then j else j + 1];
        }
      }
      Pigeonhole(rest, size - 1);
    }
  }

  /** A table with fewer entries than cells has a cell to insert into. */
  lemma FreeCellExists(cells: seq<Cell>, order: seq<nat>, head: Link)
    requires ListOk(cells, order, head) && |order| < |cells|
    ensures exists i: nat :: i < |cells| && cells[i].status != InUse
  {
    if forall i: nat | i < |cells| :: cells[i].status == InUse {
      Pigeonhole(order, |cells|);
    }
  }

  // ----- Inserting -----

  /** The cells after linking cell p, now in use, in front of the list. */
  function Pushed(cells: seq<Cell>, p: nat, key: Key, data: Data, hash: int, head: Link): seq<Cell>
    requires p < |cells| && (head.At? ==> head.slot < |cells| && head.slot != p)
  {
    var next := cells[p := Cell(InUse, key, data, hash, head, Nil)];
    if head.At? then next[head.slot := next[head.slot].(prev := At(p))] else next
  }

  lemma HeadFacts(cells: seq<Cell>, order: seq<nat>, head: Link, p: nat)
    requires ListOk(cells, order, head) && p < |cells| && cells[p].status != InUse
    ensures (head.At? ==> head.slot < |cells| && head.slot != p) && p !in order
  {
    hide Linked;
  }

  lemma PushMembers(cells: seq<Cell>, order: seq<nat>, p: nat, key: Key, data: Data, hash: int, head: Link)
    requires Members(cells, order) && p < |cells| && (head.At? ==> head.slot < |cells| && head.slot != p)
    ensures Members(Pushed(cells, p, key, data, hash, head), [p] + order)
  {
    var cs, r := Pushed(cells, p, key, data, hash, head), [p] + order;
    forall i: nat | i < |cs| && cs[i].status == InUse ensures i in r {
      assert i != p ==> cells[i].status == InUse;
    }
    forall k: nat | k < |r| ensures r[k] < |cs| && cs[r[k]].status == InUse {
      assert k > 0 ==> r[k] == order[k - 1];
    }
  }

  lemma PushLink(cells: seq<Cell>, order: seq<nat>, head: Link, p: nat, key: Key, data: Data, hash: int, k: nat)
    requires ListOk(cells, order, head) && p < |cells| && p !in order && k < |order|
    requires head.At? ==> head.slot < |cells| && head.slot != p
    ensures var cs, r := Pushed(cells, p, key, data, hash, head), [p] + order;
            && order[k] < |cs| && Linked(cs, r, k + 1)
            && cs[r[k + 1]].key == cells[order[k]].key && cs[r[k + 1]].data == cells[order[k]].data
  {
    var r := [p] + order;
    assert r[k + 1] == order[k] && order[k] in order && Linked(cells, order, k);
    assert k > 0 ==> order[k] != order[0] && r[k] == order[k - 1];
    assert k + 2 < |r| ==> r[k + 2] == order[k + 1];
  }

  lemma PushList(cells: seq<Cell>, order: seq<nat>, head: Link, p: nat, key: Key, data: Data, hash: int)
    requires ListOk(cells, order, head) && p < |cells| && p !in order
    requires head.At? ==> head.slot < |cells| && head.slot != p
    ensures ListOk(Pushed(cells, p, key, data, hash, head), [p] + order, At(p))
    ensures Contents(Pushed(cells, p, key, data, hash, head), [p] + order) == [(key, data)] + Contents(cells, order)
  {
    hide Contents;
    var cs, r := Pushed(cells, p, key, data, hash, head), [p] + order;
    PushMembers(cells, order, p, key, data, hash, head);
    PushContents(cells, order, head, p, key, data, hash);
    assert Distinct(r);
    PushFirst(cells, order, head, p, key, data, hash);
    hide Pushed, Linked, Members;
    forall k: nat | k < |r|
      ensures Linked(cs, r, k)
    {
      if k > 0 { PushLink(cells, order, head, p, key, data, hash, k - 1); }
    }
  }

  lemma PushFirst(cells: seq<Cell>, order: seq<nat>, head: Link, p: nat, key: Key, data: Data, hash: int)
    requires head == LinkAt(order, 0) && p < |cells| && (head.At? ==> head.slot < |cells| && head.slot != p)
    ensures Linked(Pushed(cells, p, key, data, hash, head), [p] + order, 0)
  {
  }

  lemma PushContents(cells: seq<Cell>, order: seq<nat>, head: Link, p: nat, key: Key, data: Data, hash: int)
    requires ListOk(cells, order, head) && p < |cells| && p !in order
    requires head.At? ==> head.slot < |cells| && head.slot != p
    requires Members(Pushed(cells, p, key, data, hash, head), [p] + order)
    ensures Contents(Pushed(cells, p, key, data, hash, head), [p] + order) == [(key, data)] + Contents(cells, order)
  {
    var cs, r := Pushed(cells, p, key, data, hash, head), [p] + order;
    forall k: nat | k < |r|
      ensures Contents(cs, r)[k] == ([(key, data)] + Contents(cells, order))[k]
    {
      if k > 0 {
        PushLink(cells, order, head, p, key, data, hash, k - 1);
        assert r[k] == order[k - 1];
      }
    }
  }

  lemma PushProbes(cells: seq<Cell>, hash: Key -> int, p: nat, key: Key, data: Data, head: Link, d: nat)
    requires |cells| > 0 && ProbesOk(cells, hash) && d < |cells| && p == Probe(Home(hash(key), |cells|), d, |cells|)
    requires head.At? ==> head.slot < |cells| && head.slot != p
    requires forall e: nat | e < d :: cells[Probe(Home(hash(key), |cells|), e, |cells|)].status == InUse
    ensures ProbesOk(Pushed(cells, p, key, data, hash(key), head), hash)
  {
    var cs := Pushed(cells, p, key, data, hash(key), head);
    assert forall i: nat | i < |cells| && cells[i].status != Empty :: cs[i].status != Empty;
    forall i: nat | i < |cs| && cs[i].status == InUse
      ensures cs[i].hash == hash(cs[i].key) && Reachable(cs, i)
    {
      if i != p {
        assert cells[i].status == InUse && Reachable(cells, i);
      }
    }
  }

  // ----- Removing -----

  /** The cells after taking cell p out of the list. Its own links are kept. */
  function Unlinked(cells: seq<Cell>, p: nat): (r: seq<Cell>)
    requires Removable(cells, p)
    ensures |r| == |cells|
  {
    var c := cells[p];
    var a := cells[p := Cell(Tombstone, "", 0, 0, c.next, c.prev)];
    var b := if c.next.At? then a[c.next.slot := a[c.next.slot].(prev := c.prev)] else a;
    if c.prev.At? then b[c.prev.slot := b[c.prev.slot].(next := c.next)] else b
  }

  /** Cell p can be taken out: its neighbours are other cells. */
  ghost predicate Removable(cells: seq<Cell>, p: nat) {
    && p < |cells| && (cells[p].next.At? ==> cells[p].next.slot < |cells| && cells[p].next.slot != p)
    && (cells[p].prev.At? ==> cells[p].prev.slot < |cells| && cells[p].prev.slot != p)
  }

  lemma LinkFacts(cells: seq<Cell>, order: seq<nat>, head: Link, k: nat)
    requires ListOk(cells, order, head) && k < |order|
    ensures Removable(cells, order[k])
    ensures cells[order[k]].next == LinkAt(order, k + 1) && cells[order[k]].prev == LinkAt(order, k - 1)
  {
    assert Linked(cells, order, k);
  }

  lemma UnlinkedCell(cells: seq<Cell>, order: seq<nat>, head: Link, k: nat, j: nat)
    requires ListOk(cells, order, head) && k < |order| && j < |order| && j != k && Removable(cells, order[k])
    ensures order[j] < |cells|
    ensures var c, d := cells[order[j]], Unlinked(cells, order[k])[order[j]];
            && d.status == InUse && d.key == c.key && d.data == c.data && d.hash == c.hash
            && d.next == LinkAt(order, if j == k - 1 then k + 1 else j + 1)
            && d.prev == LinkAt(order, if j == k + 1 then k - 1 else j - 1)
  {
    LinkFacts(cells, order, head, k);
    LinkFacts(cells, order, head, j);
    assert order[j] != order[k];
    assert j != k - 1 && k > 0 ==> order[j] != order[k - 1];
    assert j != k + 1 && k + 1 < |order| ==> order[j] != order[k + 1];
    assert k > 0 && k + 1 < |order| ==> order[k - 1] != order[k + 1];
  }

  lemma UnlinkAt(cells: seq<Cell>, order: seq<nat>, head: Link, k: nat, j: nat)
    requires ListOk(cells, order, head) && k < |order| && j + 1 < |order| && Removable(cells, order[k])
    ensures var cs, r := Unlinked(cells, order[k]), Without(order, k);
            && r[j] < |cs| && cs[r[j]].status == InUse && Linked(cs, r, j)
            && cs[r[j]].key == cells[r[j]].key && cs[r[j]].data == cells[r[j]].data
  {
    hide ListOk, Unlinked, Removable;
    UnlinkedCell(cells, order, head, k, if j < k then j else j + 1);
  }

  lemma UnlinkMembers(cells: seq<Cell>, order: seq<nat>, head: Link, k: nat)
    requires ListOk(cells, order, head) && k < |order| && Removable(cells, order[k])
    ensures Members(Unlinked(cells, order[k]), Without(order, k))
  {
    var cs, r := Unlinked(cells, order[k]), Without(order, k);
    forall i: nat | i < |cs| && cs[i].status == InUse ensures i in r {
      UnlinkOthers(cells, order, head, k, i);
      var j: nat :| j < |order| && order[j] == i;
      assert i == if j < k then r[j] else r[j - 1];
    }
    forall j: nat | j < |r| ensures r[j] < |cs| && cs[r[j]].status == InUse {
      UnlinkAt(cells, order, head, k, j);
    }
  }

  lemma UnlinkOthers(cells: seq<Cell>, order: seq<nat>, head: Link, k: nat, i: nat)
    requires ListOk(cells, order, head) && k < |order| && i < |cells| && Removable(cells, order[k])
    ensures Unlinked(cells, order[k])[i].status == InUse ==> i in order && i != order[k]
  {
    LinkFacts(cells, order, head, k);
  }

  lemma WithoutDistinct(order: seq<nat>, k: nat)
    requires Distinct(order) && k < |order|
    ensures Distinct(Without(order, k))
  {
    hide Without;
  }

  lemma UnlinkContents(cells: seq<Cell>, order: seq<nat>, head: Link, k: nat)
    requires ListOk(cells, order, head) && k < |order| && Removable(cells, order[k])
    requires Members(Unlinked(cells, order[k]), Without(order, k))
    ensures Contents(Unlinked(cells, order[k]), Without(order, k)) == Without(Contents(cells, order), k)
  {
    hide Unlinked, Removable, Linked, Without;
    var cs, r := Unlinked(cells, order[k]), Without(order, k);
    forall j: nat | j < |r|
      ensures Contents(cs, r)[j] == Without(Contents(cells, order), k)[j]
    {
      UnlinkAt(cells, order, head, k, j);
      var j' := if j < k then j else j + 1;
      assert r[j] == order[j'] && Without(Contents(cells, order), k)[j] == Contents(cells, order)[j'];
    }
  }

  lemma UnlinkList(cells: seq<Cell>, order: seq<nat>, head: Link, k: nat)
    requires ListOk(cells, order, head) && k < |order| && Removable(cells, order[k])
    ensures var cs, r := Unlinked(cells, order[k]), Without(order, k);
            && ListOk(cs, r, if k == 0 then cells[order[k]].next else head)
            && Contents(cs, r) == Without(Contents(cells, order), k)
  {
    hide Unlinked, Removable, Without, Contents;
    var cs, r := Unlinked(cells, order[k]), Without(order, k);
    UnlinkMembers(cells, order, head, k);
    WithoutDistinct(order, k);
    UnlinkContents(cells, order, head, k);
    LinkFacts(cells, order, head, k);
    forall j: nat | j < |r| ensures Linked(cs, r, j) { UnlinkAt(cells, order, head, k, j); }
  }

  lemma UnlinkProbes(cells: seq<Cell>, hash: Key -> int, p: nat)
    requires ProbesOk(cells, hash) && Removable(cells, p)
    ensures ProbesOk(Unlinked(cells, p), hash)
  {
    var cs := Unlinked(cells, p);
    assert forall i: nat | i < |cells| :: cs[i].status == Empty ==> cells[i].status == Empty;
    forall i: nat | i < |cs| && cs[i].status == InUse
      ensures cs[i].hash == hash(cs[i].key) && Reachable(cs, i)
    {
      assert cells[i].status == InUse && Reachable(cells, i);
    }
  }

  // ----- Entries as a bag -----

  // The entries among the first n cells, in the order of the cells.
  function InCells(cells: seq<Cell>, n: nat): seq<(Key, Data)>
    requires n <= |cells|
  {
    if n == 0 then []
    else InCells(cells, n - 1) + if cells[n - 1].status == InUse then [(cells[n - 1].key, cells[n - 1].data)] else []
  }

  lemma WithoutBag<T>(s: seq<T>, k: nat)
    requires k < |s|
    ensures multiset(s) == multiset(Without(s, k)) + multiset{s[k]}
  {
    assert s == s[..k] + [s[k]] + s[k + 1..];
  }

  // The order lists exactly the cells in use among the first n.
  ghost predicate Lists(cells: seq<Cell>, order: seq<nat>, n: nat) {
    && n <= |cells| && Distinct(order)
    && (forall k: nat | k < |order| :: order[k] < n && cells[order[k]].status == InUse)
    && (forall i: nat | i < n && cells[i].status == InUse :: i in order)
  }

  lemma ListsWithoutLast(cells: seq<Cell>, order: seq<nat>, n: nat, k: nat)
    requires Lists(cells, order, n) && n > 0 && k < |order| && order[k] == n - 1
    ensures Lists(cells, Without(order, k), n - 1)
    ensures Without(Contents(cells, order), k) == Contents(cells, Without(order, k))
  {
    var rest := Without(order, k);
    WithoutDistinct(order, k);
    forall i: nat | i < n - 1 && cells[i].status == InUse ensures i in rest {
      assert i in order;
      var j: nat :| j < |order| && order[j] == i;
      assert i == if j < k then rest[j] else rest[j - 1];
    }
  }

  lemma ListsNothing(cells: seq<Cell>, order: seq<nat>, n: nat)
    requires Lists(cells, order, n)
    ensures n == 0 ==> Contents(cells, order) == [] && InCells(cells, n) == []
  {
    if |order| > 0 { assert order[0] < n; }
  }

  /** The list holds the same entries as the cells. */
  lemma {:induction false} ListBag(cells: seq<Cell>, order: seq<nat>, n: nat)
    requires Lists(cells, order, n)
    ensures multiset(Contents(cells, order)) == multiset(InCells(cells, n))
    decreases n
  {
    hide Contents, InCells, Distinct, Without;
    if n == 0 {
      ListsNothing(cells, order, n);
    } else {
      NextCell(cells, n - 1);
      if cells[n - 1].status == InUse {
        assert n - 1 in order;
        var k: nat :| k < |order| && order[k] == n - 1;
        ListsWithoutLast(cells, order, n, k);
        ListBag(cells, Without(order, k), n - 1);
        WithoutBag(Contents(cells, order), k);
      } else {
        ListBag(cells, order, n - 1);
      }
    }
  }

  lemma {:induction false} InCellsGrows(cells: seq<Cell>, n: nat)
    requires n <= |cells|
    ensures |InCells(cells, n)| <= |InCells(cells, |cells|)|
    decreases |cells| - n
  {
    if n < |cells| { InCellsGrows(cells, n + 1); }
  }

  lemma BagSize(cells: seq<Cell>, hash: Key -> int, order: seq<nat>, head: Link, count: nat, n: nat)
    requires Rep(cells, hash, order, head, count) && n <= |cells|
    ensures multiset(Contents(cells, order)) == multiset(InCells(cells, |cells|))
    ensures |InCells(cells, n)| <= count == |InCells(cells, |cells|)|
    ensures n < |cells| && cells[n].status == InUse ==> |InCells(cells, n)| < count
  {
    hide Rep, Lists, Contents, InCells;
    RepLists(cells, hash, order, head, count);
    ListBag(cells, order, |cells|);
    assert |multiset(Contents(cells, order))| == |multiset(InCells(cells, |cells|))|;
    InCellsGrows(cells, n);
    if n < |cells| {
      NextCell(cells, n);
      InCellsGrows(cells, n + 1);
    }
  }

  lemma RepLists(cells: seq<Cell>, hash: Key -> int, order: seq<nat>, head: Link, count: nat)
    requires Rep(cells, hash, order, head, count)
    ensures (forall i: nat | i < |order| :: order[i] < |cells|) && Lists(cells, order, |cells|) && |Contents(cells, order)| == count
  {
    hide ProbesOk, Linked;
  }

  lemma NextCell(cells: seq<Cell>, n: nat)
    requires n < |cells|
    ensures InCells(cells, 0) == []
    ensures InCells(cells, n + 1)
         == if cells[n].status == InUse then InCells(cells, n) + [(cells[n].key, cells[n].data)] else InCells(cells, n)
  {
  }

  lemma RepSize(cells: seq<Cell>, hash: Key -> int, order: seq<nat>, head: Link, count: nat)
    requires Rep(cells, hash, order, head, count)
    ensures |cells| > 0
  {
  }

  lemma RepEmpty(size: nat, hash: Key -> int)
    requires size > 0
    ensures Rep(seq(size, _ => BLANK), hash, [], Nil, 0)
  {
  }

  /** Inserting at the first cell that is not in use keeps the table. */
  lemma RepInsert(cells: seq<Cell>, hash: Key -> int, order: seq<nat>, head: Link, count: nat, key: Key, data: Data, d: nat)
    requires Rep(cells, hash, order, head, count) && d < |cells|
    requires var home := Home(hash(key), |cells|);
             && cells[Probe(home, d, |cells|)].status != InUse
             && forall e: nat | e < d :: cells[Probe(home, e, |cells|)].status == InUse
    ensures var p := Probe(Home(hash(key), |cells|), d, |cells|);
            && (head.At? ==> head.slot < |cells| && head.slot != p)
            && Rep(Pushed(cells, p, key, data, hash(key), head), hash, [p] + order, At(p), count + 1)
            && Contents(Pushed(cells, p, key, data, hash(key), head), [p] + order) == [(key, data)] + Contents(cells, order)
  {
    hide ProbesOk, ListOk, Contents;
    var p := Probe(Home(hash(key), |cells|), d, |cells|);
    HeadFacts(cells, order, head, p);
    PushList(cells, order, head, p, key, data, hash(key));
    PushProbes(cells, hash, p, key, data, head, d);
  }

  /** Taking an entry out of the list keeps the table. */
  lemma RepRemove(cells: seq<Cell>, hash: Key -> int, order: seq<nat>, head: Link, count: nat, k: nat)
    requires Rep(cells, hash, order, head, count) && k < |order|
    ensures Removable(cells, order[k]) && order[k] < |cells| && (head == At(order[k]) <==> k == 0)
    ensures var head' := if k == 0 then cells[order[k]].next else head;
            && Rep(Unlinked(cells, order[k]), hash, Without(order, k), head', count - 1)
            && Contents(Unlinked(cells, order[k]), Without(order, k)) == Without(Contents(cells, order), k)
  {
    hide ProbesOk, Linked, Contents, Unlinked, Without, Removable;
    LinkFacts(cells, order, head, k);
    UnlinkList(cells, order, head, k);
    UnlinkProbes(cells, hash, order[k]);
  }

  class HashTable {
    const hash: Key -> int
    var table: array<Cell>
    var head: Link
    var count: nat
    ghost var order: seq<nat>

    ghost predicate Valid()
      reads this, table
    {
      Rep(table[..], hash, order, head, count)
    }

    ghost function Entries(): seq<(Key, Data)>
      requires Valid()
      reads this, table
    {
      Contents(table[..], order)
    }

    constructor (hash: Key -> int, size: nat)
      requires size > 0
      ensures Valid() && fresh(table) && table.Length == size && Entries() == [] && this.hash == hash && count == 0
    {
      this.hash := hash;
      table := new Cell[size](_ => BLANK);
      head, count, order := Nil, 0, [];
      new;
      assert table[..] == seq(size, _ => BLANK);
      RepEmpty(size, hash);
    }

    /** Finds the first cell from the home of a key that is not in use. */
    method FindFree(key: Key) returns (p: nat, ghost d: nat)
      requires Valid() && count < table.Length
      ensures d < table.Length && p == Probe(Home(hash(key), table.Length), d, table.Length) && table[p].status != InUse
      ensures forall e: nat | e < d :: table[Probe(Home(hash(key), table.Length), e, table.Length)].status == InUse
    {
      hide ProbesOk, Linked;
      FreeCellExists(table[..], order, head);
      ghost var free: nat :| free < table.Length && table[..][free].status != InUse;
      var home := Home(hash(key), table.Length);
      ghost var far := Distance(home, free, table.Length);
      p, d := home, 0;
      while table[p].status == InUse
        invariant d <= far < table.Length && p == Probe(home, d, table.Length)
        invariant forall e: nat | e < d :: table[Probe(home, e, table.Length)].status == InUse
        decreases far - d
      {
        p, d := p + 1, d + 1;
        if p == table.Length { p := 0; }
      }
    }

    method Insert(key: Key, data: Data)
      requires Valid() && count < table.Length
      modifies this, table
      ensures Valid() && table == old(table) && Entries() == [(key, data)] + old(Entries()) && count == old(count) + 1
    {
      hide Rep, Contents;
      var p: nat;
      ghost var d: nat;
      p, d := FindFree(key);
      ghost var cells := table[..];
      RepInsert(cells, hash, order, head, count, key, data, d);
      table[p] := Cell(InUse, key, data, hash(key), head, Nil);
      if head.At? { table[head.slot] := table[head.slot].(prev := At(p)); }
      assert table[..] == Pushed(cells, p, key, data, hash(key), head);
      head, count, order := At(p), count + 1, [p] + order;
    }

    /** Moves all entries to a larger table. */
    method Grow(size: nat)
      requires Valid() && size > count
      modifies this
      ensures Valid() && fresh(table) && table.Length == size && count == old(count)
      ensures multiset(Entries()) == multiset(old(Entries()))
    {
      hide Rep, Contents, InCells;
      var larger := new HashTable(hash, size);
      ghost var cells := table[..];
      RepSize(cells, hash, order, head, count);
      NextCell(cells, 0);
      var i: nat := 0;
      while i < table.Length
        invariant i <= table.Length && larger.Valid() && larger.hash == hash && fresh(larger) && fresh(larger.table)
        invariant larger.table.Length == size && table[..] == cells && larger.table != table
        invariant multiset(larger.Entries()) == multiset(InCells(cells, i)) && larger.count == |InCells(cells, i)|
        invariant table == old(table) && head == old(head) && count == old(count) && order == old(order)
      {
        BagSize(cells, hash, order, head, count, i);
        NextCell(cells, i);
        if table[i].status == InUse {
          larger.Insert(table[i].key, table[i].data);
        }
        i := i + 1;
      }
      BagSize(cells, hash, order, head, count, i);
      table, head, count, order := larger.table, larger.head, larger.count, larger.order;
    }

    /** Probes from the home of a key until its entry or an empty cell, or once around. */
    method Lookup(key: Key) returns (found: bool, p: nat)
      requires Valid()
      ensures found ==> p < table.Length && table[p].status == InUse && table[p].key == key
      ensures !found ==> forall i: nat | i < table.Length && table[i].status == InUse :: table[i].key != key
    {
      hide ListOk;
      var hashval := hash(key);
      var start := Home(hashval, table.Length);
      ghost var d: nat := 0;
      p := start;
      while true
        invariant d < table.Length && p == Probe(start, d, table.Length)
        invariant forall i: nat | i < table.Length && table[i].status == InUse && table[i].key == key ::
                    Distance(start, i, table.Length) >= d
        decreases table.Length - d
      {
        if table[p].status == InUse && table[p].hash == hashval && table[p].key == key { return true, p; }
        NotAt(key, start, d, p);
        if table[p].status == Empty { return false, p; }
        d, p := d + 1, p + 1;
        if p == table.Length { p := 0; }
        if p == start { return false, p; }
      }
    }

    /** An entry of the key lies further on, and not behind an empty cell. */
    lemma NotAt(key: Key, start: nat, d: nat, p: nat)
      requires Valid() && start == Home(hash(key), table.Length) && d < table.Length && p == Probe(start, d, table.Length)
      requires !(table[p].status == InUse && table[p].hash == hash(key) && table[p].key == key)
      ensures forall i: nat | i < table.Length && table[i].status == InUse && table[i].key == key
                              && Distance(start, i, table.Length) >= d ::
                Distance(start, i, table.Length) > d && table[p].status != Empty
    {
      hide ListOk;
      forall i: nat | i < table.Length && table[i].status == InUse && table[i].key == key
                      && Distance(start, i, table.Length) >= d
        ensures Distance(start, i, table.Length) > d && table[p].status != Empty
      {
        assert table[..][i].status == InUse && Reachable(table[..], i);
      }
    }

    lemma Listed(p: nat)
      requires Valid() && p < table.Length && table[p].status == InUse
      ensures exists k: nat :: k < |order| && order[k] == p
    {
      assert table[..][p].status == InUse && p in order;
    }

    lemma KeysListed(key: Key)
      requires Valid()
      ensures (exists i: nat :: i < table.Length && table[i].status == InUse && table[i].key == key)
         <==> (exists k: nat :: k < |Entries()| && Entries()[k].0 == key)
    {
      hide ProbesOk, Linked;
      if i: nat :| i < table.Length && table[i].status == InUse && table[i].key == key {
        Listed(i);
        var k: nat :| k < |order| && order[k] == i;
        assert Entries()[k].0 == key;
      }
      if k: nat :| k < |Entries()| && Entries()[k].0 == key {
        assert table[..][order[k]].status == InUse;
        assert table[order[k]].key == key;
      }
    }

    /** The data of some entry of the key, or nothing if there is none. */
    method LookupData(key: Key) returns (found: bool, data: Data)
      requires Valid()
      ensures found <==> exists k: nat :: k < |Entries()| && Entries()[k].0 == key
      ensures found ==> (key, data) in Entries()
    {
      hide Rep, Contents;
      var p: nat;
      found, p := Lookup(key);
      data := 0;
      KeysListed(key);
      if found {
        data := table[p].data;
        EntryAt(p);
      }
    }

    lemma EntryAt(p: nat)
      requires Valid() && p < table.Length && table[p].status == InUse
      ensures (table[p].key, table[p].data) in Entries()
    {
      Listed(p);
      var k: nat :| k < |order| && order[k] == p;
      assert Entries()[k] == (table[p].key, table[p].data);
    }

    /** Doubles the table until at most half of it is in use, then inserts. */
    method AddTo(key: Key, data: Data)
      requires Valid()
      modifies this, table
      ensures Valid() && (table == old(table) || fresh(table))
      ensures multiset(Entries()) == multiset(old(Entries())) + multiset{(key, data)}
    {
      hide Rep, Contents;
      RepSize(table[..], hash, order, head, count);
      var size := table.Length;
      while count > size / 2
        invariant size > 0 && size >= table.Length
        decreases if 2 * count > size then 2 * count - size else 0
      {
        size := size * 2;
      }
      if size != table.Length { Grow(size); }
      Insert(key, data);
    }

    /** Leaves a tombstone in the cell of the key's entry; the entry keeps its links. */
    method RemoveFrom(key: Key) returns (ok: bool, ghost k: nat)
      requires Valid()
      modifies this, table
      ensures Valid() && table == old(table)
      ensures ok <==> exists j: nat :: j < |old(Entries())| && old(Entries())[j].0 == key
      ensures !ok ==> Entries() == old(Entries())
      ensures ok ==> k < |old(order)| && old(Entries())[k].0 == key && Entries() == Without(old(Entries()), k)
      ensures ok ==> order == Without(old(order), k) && Kept(old(table[..]), table[..], old(order), k)
    {
      hide Rep, Contents, Unlinked, Without;
      var p: nat;
      KeysListed(key);
      ok, p := Lookup(key);
      k := 0;
      if !ok { return; }
      Listed(p);
      k :| k < |order| && order[k] == p;
      ghost var cells := table[..];
      RepRemove(cells, hash, order, head, count, k);
      KeyAt(k);
      var next, prev := table[p].next, table[p].prev;
      Unlink(p, next, prev);
      if head == At(p) { head := next; }
      RemoveKeeps(cells, hash, order, old(head), count, k);
      count, order := count - 1, Without(order, k);
    }

    lemma KeyAt(k: nat)
      requires Valid() && k < |order|
      ensures order[k] < table.Length && Entries()[k].0 == table[order[k]].key && count > 0
    {
    }

    method Unlink(p: nat, next: Link, prev: Link)
      requires Removable(table[..], p) && next == table[p].next && prev == table[p].prev
      modifies table
      ensures table[..] == Unlinked(old(table[..]), p)
    {
      table[p] := Cell(Tombstone, "", 0, 0, next, prev);
      if next.At? { table[next.slot] := table[next.slot].(prev := prev); }
      if prev.At? { table[prev.slot] := table[prev.slot].(next := next); }
    }
  }

  /** What taking out entry k keeps for a walk that stands on it: the links behind it, and the keys and
      data of all other entries. */
  ghost predicate Kept(cells: seq<Cell>, cs: seq<Cell>, order: seq<nat>, k: nat) {
    && |cs| == |cells| && k < |order| && (forall j: nat | j < |order| :: order[j] < |cells|)
    && cs[order[k]].next == cells[order[k]].next
    && forall j: nat | k < j < |order| ::
         && cs[order[j]].next == cells[order[j]].next
         && cs[order[j]].key == cells[order[j]].key && cs[order[j]].data == cells[order[j]].data
  }

  lemma RemoveKeeps(cells: seq<Cell>, hash: Key -> int, order: seq<nat>, head: Link, count: nat, k: nat)
    requires Rep(cells, hash, order, head, count) && k < |order| && Removable(cells, order[k])
    ensures Kept(cells, Unlinked(cells, order[k]), order, k)
  {
    hide ProbesOk, Unlinked, Removable;
    forall j: nat | k < j < |order|
      ensures Unlinked(cells, order[k])[order[j]].next == cells[order[j]].next
      ensures Unlinked(cells, order[k])[order[j]].key == cells[order[j]].key
      ensures Unlinked(cells, order[k])[order[j]].data == cells[order[j]].data
    {
      UnlinkedCell(cells, order, head, k, j);
      LinkFacts(cells, order, head, j);
    }
    RemovedLink(cells, order, head, k);
  }

  lemma RemovedLink(cells: seq<Cell>, order: seq<nat>, head: Link, k: nat)
    requires ListOk(cells, order, head) && k < |order| && Removable(cells, order[k])
    ensures Unlinked(cells, order[k])[order[k]].next == cells[order[k]].next
  {
  }

  // ----- Walking the list while deleting -----

  ghost predicate UniqueKeys(es: seq<(Key, Data)>) {
    forall i: nat, j: nat | i < j < |es| :: es[i].0 != es[j].0
  }

  function Keep(es: seq<(Key, Data)>, drop: Key -> bool): seq<(Key, Data)> {
    if |es| == 0 then []
    else Keep(es[..|es| - 1], drop) + if drop(es[|es| - 1].0) then [] else [es[|es| - 1]]
  }

  lemma {:induction false} KeepMembers(es: seq<(Key, Data)>, drop: Key -> bool, x: (Key, Data))
    requires x in Keep(es, drop)
    ensures x in es
  {
    if |es| > 0 && x in Keep(es[..|es| - 1], drop) { KeepMembers(es[..|es| - 1], drop, x); }
  }

  /** It drops the entries of those keys, one by one, and nothing else. */
  lemma {:induction false} KeepJoin(es: seq<(Key, Data)>, fs: seq<(Key, Data)>, drop: Key -> bool)
    ensures Keep(es + fs, drop) == Keep(es, drop) + Keep(fs, drop)
    ensures |es| == 1 ==> Keep(es, drop) == if drop(es[0].0) then [] else es
    decreases |fs|
  {
    if |es| == 1 { assert es == [es[0]] && es[..0] == []; }
    if fs == [] {
      assert es + fs == es;
    } else {
      KeepJoin(es, fs[..|fs| - 1], drop);
      assert (es + fs)[..|es + fs| - 1] == es + fs[..|fs| - 1];
    }
  }

  lemma KeepStep(es: seq<(Key, Data)>, drop: Key -> bool, n: nat)
    requires n < |es|
    ensures Keep(es[..n + 1], drop) == Keep(es[..n], drop) + if drop(es[n].0) then [] else [es[n]]
  {
    assert es[..n + 1][..n] == es[..n];
  }

  lemma KeptKeys(es: seq<(Key, Data)>, drop: Key -> bool, n: nat, k: nat)
    requires UniqueKeys(es) && n < |es| && k < |Keep(es[..n], drop)|
    ensures Keep(es[..n], drop)[k].0 != es[n].0
  {
    var kept := Keep(es[..n], drop);
    KeepMembers(es[..n], drop, kept[k]);
    var j: nat :| j < n && es[j] == kept[k];
  }

  /** Among the entries kept so far and those still to come, the current one is the only one of its
      key. */
  lemma OnlyCurrent(es: seq<(Key, Data)>, drop: Key -> bool, n: nat, k: nat)
    requires UniqueKeys(es) && n < |es|
    requires var now := Keep(es[..n], drop) + es[n..]; k < |now| && now[k].0 == es[n].0
    ensures k == |Keep(es[..n], drop)|
  {
    var kept := Keep(es[..n], drop);
    assert k >= |kept| ==> (kept + es[n..])[k] == es[n + (k - |kept|)];
    if k < |kept| { KeptKeys(es, drop, n, k); }
  }

  // A walk over the entries es in cells were has passed n of them.
  ghost predicate Walking(now: seq<(Key, Data)>, order: seq<nat>, es: seq<(Key, Data)>, were: seq<nat>, drop: Key -> bool, n: nat) {
    && n <= |es| == |were| && now == Keep(es[..n], drop) + es[n..]
    && |order| == |now| && order[|order| - (|were| - n)..] == were[n..]
  }

  lemma WalkStart(es: seq<(Key, Data)>, were: seq<nat>, drop: Key -> bool)
    requires |es| == |were|
    ensures Walking(es, were, es, were, drop, 0)
  {
    assert es[..0] == [] && [] + es[0..] == es && were[0..] == were;
  }

  lemma WalkEnd(now: seq<(Key, Data)>, order: seq<nat>, es: seq<(Key, Data)>, were: seq<nat>, drop: Key -> bool)
    requires Walking(now, order, es, were, drop, |es|)
    ensures now == Keep(es, drop)
  {
    assert es[..|es|] == es && Keep(es, drop) + es[|es|..] == Keep(es, drop);
  }

  /** The position of the current entry among the remaining ones. */
  lemma WalkAt(now: seq<(Key, Data)>, order: seq<nat>, es: seq<(Key, Data)>, were: seq<nat>, drop: Key -> bool, n: nat)
    requires Walking(now, order, es, were, drop, n) && n < |es|
    ensures var k := |order| - (|were| - n); 0 <= k < |order| && k == |Keep(es[..n], drop)|
    ensures var k := |order| - (|were| - n); order[k] == were[n] && now[k] == es[n] && LinkAt(order, k + 1) == LinkAt(were, n + 1)
  {
    var k := |order| - (|were| - n);
    assert order[k..][0] == were[n..][0];
    if n + 1 < |were| { assert order[k..][1] == were[n..][1]; }
  }

  lemma WalkKeeps(now: seq<(Key, Data)>, order: seq<nat>, es: seq<(Key, Data)>, were: seq<nat>, drop: Key -> bool, n: nat)
    requires Walking(now, order, es, were, drop, n) && n < |es| && !drop(es[n].0)
    ensures Walking(now, order, es, were, drop, n + 1)
  {
    KeepStep(es, drop, n);
    var k := |order| - (|were| - n);
    assert Keep(es[..n], drop) + es[n..] == (Keep(es[..n], drop) + [es[n]]) + es[n + 1..];
    assert order[k + 1..] == order[k..][1..] == were[n..][1..] == were[n + 1..];
  }

  lemma WalkDrops(now: seq<(Key, Data)>, order: seq<nat>, es: seq<(Key, Data)>, were: seq<nat>, drop: Key -> bool, n: nat, k: nat)
    requires Walking(now, order, es, were, drop, n) && n < |es| && drop(es[n].0) && k == |order| - (|were| - n)
    ensures k < |order| && Walking(Without(now, k), Without(order, k), es, were, drop, n + 1)
  {
    KeepStep(es, drop, n);
    var kept := Keep(es[..n], drop);
    assert kept + [] == kept;
    assert Without(now, k) == kept + es[n + 1..];
    assert Without(order, k)[k..] == order[k..][1..] == were[n..][1..] == were[n + 1..];
  }

  /** One call of the callback, which deletes the entry if it is to be dropped. */
  method CallBack(t: HashTable, slot: nat, drop: Key -> bool, ghost es: seq<(Key, Data)>, ghost were: seq<nat>, ghost n: nat)
    returns (x: (Key, Data), next: Link)
    requires t.Valid() && UniqueKeys(es) && n < |es| && Walking(t.Entries(), t.order, es, were, drop, n) && slot == were[n]
    modifies t, t.table
    ensures t.Valid() && t.table == old(t.table) && Walking(t.Entries(), t.order, es, were, drop, n + 1)
    ensures x == es[n] && next == LinkAt(were, n + 1)
  {
    hide Rep, Contents, Without, UniqueKeys, Walking, LinkAt;
    ghost var k := |t.order| - (|were| - n);
    WalkAt(t.Entries(), t.order, es, were, drop, n);
    CellAt(t, k);
    x := (t.table[slot].key, t.table[slot].data);
    if drop(x.0) {
      ghost var now, order := t.Entries(), t.order;
      var ok: bool;
      ghost var j: nat;
      ok, j := t.RemoveFrom(x.0);
      assert now[k].0 == x.0;
      WalkUnique(now, order, es, were, drop, n, j);
      WalkDrops(now, order, es, were, drop, n, k);
    } else {
      WalkKeeps(t.Entries(), t.order, es, were, drop, n);
    }
    next := t.table[slot].next;
  }

  lemma WalkUnique(now: seq<(Key, Data)>, order: seq<nat>, es: seq<(Key, Data)>, were: seq<nat>, drop: Key -> bool, n: nat, j: nat)
    requires UniqueKeys(es) && n < |es| && Walking(now, order, es, were, drop, n) && j < |now| && now[j].0 == es[n].0
    ensures j == |order| - (|were| - n)
  {
    OnlyCurrent(es, drop, n, j);
  }

  lemma CellAt(t: HashTable, k: nat)
    requires t.Valid() && k < |t.order|
    ensures t.order[k] < t.table.Length && |t.Entries()| == |t.order|
    ensures t.Entries()[k] == (t.table[t.order[k]].key, t.table[t.order[k]].data)
    ensures t.table[t.order[k]].next == LinkAt(t.order, k + 1)
  {
    LinkFacts(t.table[..], t.order, t.head, k);
  }

  /** The callback may delete the entry it is called for: every entry is still visited exactly once,
      in list order, and exactly the deleted ones are gone. */
  method ForEach(t: HashTable, drop: Key -> bool) returns (visited: seq<(Key, Data)>)
    requires t.Valid() && UniqueKeys(t.Entries())
    modifies t, t.table
    ensures t.Valid() && t.table == old(t.table)
    ensures visited == old(t.Entries()) && t.Entries() == Keep(old(t.Entries()), drop)
  {
    hide Rep, Contents, UniqueKeys, Walking, Keep, HashTable.Entries;
    var i := t.head;
    ghost var es, were := t.Entries(), t.order;
    ghost var n: nat := 0;
    visited := [];
    HeadAt(t);
    WalkStart(es, were, drop);
    while i.At?
      invariant t.Valid() && t.table == old(t.table) && n <= |es| == |were| && i == LinkAt(were, n) && visited == es[..n]
      invariant Walking(t.Entries(), t.order, es, were, drop, n)
      decreases |es| - n
    {
      var x: (Key, Data);
      x, i := CallBack(t, i.slot, drop, es, were, n);
      assert es[..n + 1] == es[..n] + [es[n]];
      visited := visited + [x];
      n := n + 1;
    }
    WalkEnd(t.Entries(), t.order, es, were, drop);
  }

  lemma HeadAt(t: HashTable)
    requires t.Valid()
    ensures t.head == LinkAt(t.order, 0) && |t.Entries()| == |t.order|
  {
  }

  // ----- The table as a map -----

  /** The entries are those of the map, each once. */
  ghost predicate Represents(es: seq<(Key, Data)>, m: map<Key, Data>) {
    forall x: (Key, Data) :: multiset(es)[x] == if x.0 in m && m[x.0] == x.1 then 1 else 0
  }

  lemma RepresentsFind(es: seq<(Key, Data)>, m: map<Key, Data>, key: Key)
    requires Represents(es, m)
    ensures (exists k: nat :: k < |es| && es[k].0 == key) <==> key in m
    ensures forall data: Data :: (key, data) in es <==> key in m && m[key] == data
  {
    forall x: (Key, Data) ensures x in es <==> x.0 in m && m[x.0] == x.1 {
      assert multiset(es)[x] > 0 <==> x in es;
    }
    if k: nat :| k < |es| && es[k].0 == key { assert es[k] in es; }
    if key in m {
      assert (key, m[key]) in es;
      var k: nat :| k < |es| && es[k] == (key, m[key]);
    }
  }

  lemma RepresentsRemove(es: seq<(Key, Data)>, m: map<Key, Data>, k: nat)
    requires Represents(es, m) && k < |es|
    ensures es[k].0 in m && Represents(Without(es, k), m - {es[k].0})
  {
    RepresentsFind(es, m, es[k].0);
    assert es[k] in es && (es[k].0, es[k].1) in es;
    WithoutBag(es, k);
  }

  datatype Op = Put(key: Key, data: Data) | Delete(key: Key) | Get(key: Key)

  function MapStep(m: map<Key, Data>, op: Op): map<Key, Data> {
    match op
    case Put(key, data) => m[key := data]
    case Delete(key) => m - {key}
    case Get(_) => m
  }

  function MapRun(ops: seq<Op>): map<Key, Data> {
    if |ops| == 0 then map[] else MapStep(MapRun(ops[..|ops| - 1]), ops[|ops| - 1])
  }

  function Answer(m: map<Key, Data>, op: Op): Option<Data> {
    if op.Get? && op.key in m then Some(m[op.key]) else None
  }

  lemma {:induction false} UntouchedStays(ops: seq<Op>, after: seq<Op>, k: Key)
    requires forall o | o in after :: o.Get? || o.key != k
    ensures Answer(MapRun(ops + after), Get(k)) == Answer(MapRun(ops), Get(k))
    decreases |after|
  {
    if after == [] {
      assert ops + after == ops;
    } else {
      var rest := after[..|after| - 1];
      UntouchedStays(ops, rest, k);
      assert after[|after| - 1] in after;
      assert (ops + after)[..|ops + after| - 1] == ops + rest;
    }
  }

  /** A get answers with the data put last under its key, and with nothing if that was deleted since. */
  lemma LastPutWins(before: seq<Op>, op: Op, after: seq<Op>)
    requires forall o | o in after :: o.Get? || o.key != op.key
    ensures op.Put? ==> Answer(MapRun(before + [op] + after), Get(op.key)) == Some(op.data)
    ensures op.Delete? ==> Answer(MapRun(before + [op] + after), Get(op.key)) == None
  {
    assert (before + [op])[..|before|] == before;
    UntouchedStays(before + [op], after, op.key);
  }

  /** One operation. Putting removes the old entry first. */
  method Step(t: HashTable, op: Op, ghost m: map<Key, Data>) returns (answer: Option<Data>)
    requires t.Valid() && Represents(t.Entries(), m)
    modifies t, t.table
    ensures t.Valid() && (t.table == old(t.table) || fresh(t.table)) && Represents(t.Entries(), MapStep(m, op)) && answer == Answer(m, op)
  {
    hide Rep, Contents, Represents, Without;
    answer := None;
    RepresentsFind(t.Entries(), m, op.key);
    match op
    case Get(key) =>
      var found, data := t.LookupData(key);
      if found { answer := Some(data); }
    case Delete(key) =>
      Delete1(t, key, m);
    case Put(key, data) =>
      Delete1(t, key, m);
      ghost var es := t.Entries();
      t.AddTo(key, data);
      RepresentsAdd(es, t.Entries(), m - {key}, key, data);
      assert (m - {key})[key := data] == m[key := data];
  }

  method Delete1(t: HashTable, key: Key, ghost m: map<Key, Data>)
    requires t.Valid() && Represents(t.Entries(), m)
    modifies t, t.table
    ensures t.Valid() && t.table == old(t.table) && Represents(t.Entries(), m - {key})
  {
    hide Rep, Contents, Represents, Without;
    ghost var es := t.Entries();
    RepresentsFind(es, m, key);
    var ok: bool;
    ghost var k: nat;
    ok, k := t.RemoveFrom(key);
    if ok {
      EntryCount(t);
      RepresentsRemove(es, m, k);
    } else {
      assert m - {key} == m;
    }
  }

  lemma EntryCount(t: HashTable)
    requires t.Valid()
    ensures |t.Entries()| == |t.order|
  {
  }

  lemma RepresentsAdd(es: seq<(Key, Data)>, es': seq<(Key, Data)>, m: map<Key, Data>, key: Key, data: Data)
    requires Represents(es, m) && key !in m && multiset(es') == multiset(es) + multiset{(key, data)}
    ensures Represents(es', m[key := data])
  {
    forall x: (Key, Data) ensures multiset(es')[x] == if x.0 in m[key := data] && m[key := data][x.0] == x.1 then 1 else 0 {
      assert multiset(es)[x] == if x.0 in m && m[x.0] == x.1 then 1 else 0;
    }
  }

  /** Every run of insertions, deletions and lookups behaves like a finite map: tombstones and growth
      never hide an entry. */
  method Run(hash: Key -> int, size: nat, ops: seq<Op>) returns (answers: seq<Option<Data>>)
    requires size > 0
    ensures |answers| == |ops| && forall i: nat | i < |ops| :: answers[i] == Answer(MapRun(ops[..i]), ops[i])
  {
    hide Rep, Contents, Represents, MapRun, MapStep, Answer;
    var t := new HashTable(hash, size);
    answers := [];
    assert ops[..0] == [];
    assert Represents(t.Entries(), MapRun(ops[..0])) by { RepresentsNothing(); }
    for i := 0 to |ops|
      invariant t.Valid() && fresh(t) && fresh(t.table) && Represents(t.Entries(), MapRun(ops[..i]))
      invariant |answers| == i && forall j: nat | j < i :: answers[j] == Answer(MapRun(ops[..j]), ops[j])
    {
      RunNext(ops, i);
      var answer := Step(t, ops[i], MapRun(ops[..i]));
      answers := answers + [answer];
    }
  }

  lemma RepresentsNothing()
    ensures Represents([], MapRun([]))
  {
  }

  lemma RunNext(ops: seq<Op>, i: nat)
    requires i < |ops|
    ensures MapRun(ops[..i + 1]) == MapStep(MapRun(ops[..i]), ops[i])
  {
    assert ops[..i + 1][..i] == ops[..i];
  }
}
