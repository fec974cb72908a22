/** The blackboard: an open-addressing hash table with linear probing and backward-shift
    deletion, plus a two-level bitmap of the slots that go into snapshots. */
module Blackboards {
  import opened Variants
  import opened BitWords

  const NMAX: nat := 1021
  const CAPACITY: nat := 910

  type Slot = i: nat | i < NMAX

  datatype Cell = Cell(key: nat, value: Entry)

  const FREE := Cell(INV_ID, NoEntry)

  function Home(key: nat): Slot { key % NMAX }

  function Next(i: Slot): Slot { (i + 1) % NMAX }

  // Number of forward steps from slot a to slot b around the table.
  function Dist(a: Slot, b: Slot): nat {
    if a <= b then b - a else b - a + NMAX
  }

  predicate Used(t: seq<Cell>, i: Slot)
    requires |t| == NMAX
  {
    t[i].key != INV_ID
  }

  /** Every slot that the probe for the key at slot i passes before reaching i is in use. */
  ghost predicate Reachable(t: seq<Cell>, i: Slot)
    requires |t| == NMAX
  {
    forall j: Slot :: Dist(Home(t[i].key), j) < Dist(Home(t[i].key), i) ==> Used(t, j)
  }

  /** `at` is the inverse of the table: it sends each stored key to the one slot holding it. */
  ghost predicate Indexes(t: seq<Cell>, at: map<nat, nat>)
    requires |t| == NMAX
  {
    && (forall k | k in at :: k != INV_ID && at[k] < NMAX && t[at[k]].key == k)
    && (forall i: Slot | Used(t, i) :: t[i].key in at && at[t[i].key] == i)
  }

  ghost predicate TableOk(t: seq<Cell>, at: map<nat, nat>) {
    && |t| == NMAX
    && Indexes(t, at)
    && (forall i: Slot | Used(t, i) :: Reachable(t, i))
  }

  /** The finite map a well-formed table stands for. */
  ghost function Contents(t: seq<Cell>, at: map<nat, nat>): (m: map<nat, Entry>)
    requires |t| == NMAX && forall k | k in at :: at[k] < NMAX
    ensures m.Keys == at.Keys && |m| == |at|
  {
    var m := map k | k in at :: t[at[k]].value;
    assert m.Keys == at.Keys;
    m
  }

  /** Setting a key in a map that accepts at most CAPACITY keys. */
  function BoundedSet(m: map<nat, Entry>, key: nat, value: Entry): map<nat, Entry> {
    if Fits(m, key) then m[key := value] else m
  }

  predicate Fits(m: map<nat, Entry>, key: nat) {
    key in m || |m| < CAPACITY
  }

  lemma {:induction false} Pigeonhole(t: seq<Cell>, at: map<nat, nat>, n: nat)
    requires n <= |t| && forall i: nat | i < n :: t[i].key in at && at[t[i].key] == i
    ensures n <= |at|
  {
    if n > 0 {
      var rest := at - {t[n - 1].key};
      Pigeonhole(t, rest, n - 1);
      assert at == rest[t[n - 1].key := n - 1];
    }
  }

  // A table holding fewer keys than slots has a free slot, so every probe loop stops.
  lemma FreeSlotExists(t: seq<Cell>, at: map<nat, nat>)
    requires |t| == NMAX && Indexes(t, at) && |at| < NMAX
    ensures exists i: Slot :: !Used(t, i)
  {
    if forall i: Slot :: Used(t, i) {
      Pigeonhole(t, at, NMAX);
    }
  }

  // A probe that stops on the key or on a free slot has found the key if it is stored.
  lemma StopsAtKey(t: seq<Cell>, at: map<nat, nat>, key: nat, i: Slot)
    requires TableOk(t, at) && key != INV_ID && (t[i].key == key || !Used(t, i))
    requires forall j: Slot :: Dist(Home(key), j) < Dist(Home(key), i) ==> t[j].key != key
    ensures if key in at then i == at[key] && t[i].key == key else !Used(t, i)
  {
    if key in at {
      assert Reachable(t, at[key]);
    }
  }

  // Filling the first free slot of the probe sequence keeps the table well-formed.
  lemma AddCell(t: seq<Cell>, at: map<nat, nat>, i: Slot, key: nat, value: Entry)
    requires TableOk(t, at) && key != INV_ID && key !in at && !Used(t, i)
    requires forall j: Slot :: Dist(Home(key), j) < Dist(Home(key), i) ==> Used(t, j)
    ensures TableOk(t[i := Cell(key, value)], at[key := i])
    ensures Contents(t[i := Cell(key, value)], at[key := i]) == Contents(t, at)[key := value]
  {
    hide Dist, Home;
    var t' := t[i := Cell(key, value)];
    forall s: Slot | Used(t', s)
      ensures Reachable(t', s)
    {
      if s != i { assert Reachable(t, s); }
    }
    hide Reachable;
    assert Indexes(t', at[key := i]);
  }

  // Overwriting the value of a stored key.
  lemma UpdateCell(t: seq<Cell>, at: map<nat, nat>, key: nat, value: Entry)
    requires TableOk(t, at) && key in at
    ensures TableOk(t[at[key] := Cell(key, value)], at)
    ensures Contents(t[at[key] := Cell(key, value)], at) == Contents(t, at)[key := value]
  {
    var t' := t[at[key] := Cell(key, value)];
    forall s: Slot | Used(t', s)
      ensures Reachable(t', s)
    {
      assert Reachable(t, s);
    }
  }

  /** Backward shift in progress: slot `hole` is to be vacated, and every entry up to `last`
      has been looked at. Only entries past `last` may still have the hole on their probe path. */
  ghost predicate ShiftInv(t: seq<Cell>, at: map<nat, nat>, hole: Slot, last: Slot)
  {
    && |t| == NMAX
    && (forall k | k in at :: k != INV_ID && at[k] < NMAX && at[k] != hole && t[at[k]].key == k)
    && (forall i: Slot | Used(t, i) && i != hole :: t[i].key in at && at[t[i].key] == i)
    && (forall i: Slot | Used(t, i) && i != hole :: ReachableButFor(t, i, hole, last))
  }

  ghost predicate ReachableButFor(t: seq<Cell>, i: Slot, hole: Slot, last: Slot)
    requires |t| == NMAX
  {
    forall j: Slot :: Dist(Home(t[i].key), j) < Dist(Home(t[i].key), i) ==>
      if j == hole then Dist(hole, i) > Dist(hole, last) else Used(t, j)
  }

  /** The test `(j > I && (k <= I || k > j)) || (j < I && (k <= I && k > j))` of the shift loop. */
  predicate MustMove(k: Slot, hole: Slot, j: Slot) {
    (j > hole && (k <= hole || k > j)) || (j < hole && (k <= hole && k > j))
  }

  // The test asks whether the hole lies on the probe path from k to j.
  lemma MustMoveMeaning(k: Slot, hole: Slot, j: Slot)
    requires j != hole
    ensures MustMove(k, hole, j) <==> Dist(k, hole) < Dist(k, j)
  {}

  lemma ShiftMove(t: seq<Cell>, at: map<nat, nat>, hole: Slot, last: Slot)
    requires ShiftInv(t, at, hole, last)
    requires Next(last) != hole && Used(t, Next(last))
    requires MustMove(Home(t[Next(last)].key), hole, Next(last))
    ensures var j := Next(last);
            var at' := at[t[j].key := hole];
            && ShiftInv(t[hole := t[j]], at', j, j)
            && at'.Keys == at.Keys
            && forall k | k in at :: t[hole := t[j]][at'[k]].value == t[at[k]].value
  {
    var j := Next(last);
    var t' := t[hole := t[j]];
    assert Dist(hole, j) == Dist(hole, last) + 1;
    forall i: Slot | Used(t', i) && i != j
      ensures ReachableButFor(t', i, j, j)
    {
      if i != hole { assert ReachableButFor(t, i, hole, last); }
      assert ReachableButFor(t, j, hole, last);
    }
  }

  lemma ShiftSkip(t: seq<Cell>, at: map<nat, nat>, hole: Slot, last: Slot)
    requires ShiftInv(t, at, hole, last)
    requires Next(last) != hole && Used(t, Next(last))
    requires !MustMove(Home(t[Next(last)].key), hole, Next(last))
    ensures ShiftInv(t, at, hole, Next(last))
  {
    var j := Next(last);
    assert Dist(hole, j) == Dist(hole, last) + 1;
    forall i: Slot | Used(t, i) && i != hole
      ensures ReachableButFor(t, i, hole, j)
    {
      assert ReachableButFor(t, i, hole, last);
    }
  }

  lemma ShiftDone(t: seq<Cell>, at: map<nat, nat>, hole: Slot, last: Slot)
    requires ShiftInv(t, at, hole, last)
    requires Next(last) != hole && !Used(t, Next(last))
    ensures TableOk(t[hole := FREE], at)
  {
    var t' := t[hole := FREE];
    var j := Next(last);
    assert Dist(hole, j) == Dist(hole, last) + 1;
    forall i: Slot | Used(t', i)
      ensures Reachable(t', i)
    {
      assert ReachableButFor(t, i, hole, last);
      assert Dist(Home(t[i].key), j) >= Dist(Home(t[i].key), i);
    }
  }

  lemma ShiftStart(t: seq<Cell>, at: map<nat, nat>, key: nat)
    requires TableOk(t, at) && key in at
    ensures ShiftInv(t, at - {key}, at[key], at[key])
  {
    var hole: Slot := at[key];
    forall i: Slot | Used(t, i) && i != hole
      ensures ReachableButFor(t, i, hole, hole)
    {
      assert Reachable(t, i);
    }
  }

  /** The slots vacated one after the other when slot `hole` is deleted: each element but the first
      is the slot whose entry moves into the preceding one. `end` is the free slot ending the run. */
  ghost function Holes(t: seq<Cell>, hole: Slot, last: Slot, end: Slot): (r: seq<Slot>)
    requires |t| == NMAX
    ensures |r| > 0 && r[0] == hole
    decreases Dist(last, end)
  {
    if last == end || Next(last) == end then [hole]
    else if MustMove(Home(t[Next(last)].key), hole, Next(last))
    then [hole] + Holes(t, Next(last), Next(last), end)
    else Holes(t, hole, Next(last), end)
  }

  /** `end` is the first free slot after `first`. */
  ghost predicate EndsRun(t: seq<Cell>, first: Slot, end: Slot) {
    && |t| == NMAX && Used(t, first) && !Used(t, end)
    && forall s: Slot :: Dist(first, s) < Dist(first, end) ==> Used(t, s)
  }

  lemma RunEnd(t: seq<Cell>, at: map<nat, nat>, first: Slot) returns (end: Slot)
    requires |t| == NMAX && Indexes(t, at) && |at| < NMAX && Used(t, first)
    ensures EndsRun(t, first, end)
  {
    FreeSlotExists(t, at);
    var free: Slot :| !Used(t, free);
    end := first;
    while Used(t, end)
      invariant Dist(first, end) <= Dist(first, free)
      invariant forall s: Slot :: Dist(first, s) < Dist(first, end) ==> Used(t, s)
      decreases Dist(end, free)
    {
      end := Next(end);
    }
  }

  // --- Table of contents

  /** Slot i is listed in the bitmap. */
  predicate Marked(toc: seq<Word>, i: nat)
    requires |toc| == 32 && i < 1024
  {
    i % 32 in toc[i / 32]
  }

  /** Second level mirrors the first, and only slots in use are listed. */
  ghost predicate TocOk(t: seq<Cell>, toc: seq<Word>, toctoc: Word) {
    && |t| == NMAX && |toc| == 32
    && (forall w | 0 <= w < 32 :: w in toctoc <==> toc[w] != {})
    && (forall i: nat | i < 1024 && Marked(toc, i) :: i < NMAX && Used(t, i))
  }

  /** The values of the listed slots below n, in slot order. */
  ghost function Listed(t: seq<Cell>, toc: seq<Word>, n: nat): seq<Entry>
    requires |t| == NMAX && |toc| == 32 && n <= 1024
  {
    if n == 0 then []
    else if Marked(toc, n - 1) && n <= NMAX then Listed(t, toc, n - 1) + [t[n - 1].value]
    else Listed(t, toc, n - 1)
  }

  lemma {:induction false} ListedSkip(t: seq<Cell>, toc: seq<Word>, a: nat, b: nat)
    requires |t| == NMAX && |toc| == 32 && a <= b <= 1024
    requires forall i: nat | a <= i < b :: !Marked(toc, i)
    ensures Listed(t, toc, a) == Listed(t, toc, b)
  {
    if a < b { ListedSkip(t, toc, a, b - 1); }
  }

  /** The listed slots below n, in order. */
  ghost function ListedSlots(toc: seq<Word>, n: nat): seq<nat>
    requires |toc| == 32 && n <= 1024
  {
    if n == 0 then []
    else if Marked(toc, n - 1) then ListedSlots(toc, n - 1) + [n - 1]
    else ListedSlots(toc, n - 1)
  }

  // The listed slots are in strictly increasing order, none is missing and none repeats.
  lemma {:induction false} ListedSlotsOrdered(toc: seq<Word>, n: nat)
    requires |toc| == 32 && n <= 1024
    ensures var l := ListedSlots(toc, n);
            && (forall i, j | 0 <= i < j < |l| :: l[i] < l[j])
            && (forall i: nat | i < |l| :: l[i] < n)
            && (forall s: nat | s < n :: Marked(toc, s) <==> s in l)
  {
    if n > 0 { ListedSlotsOrdered(toc, n - 1); }
  }

  lemma {:induction false} ListedValues(t: seq<Cell>, toc: seq<Word>, toctoc: Word, n: nat)
    requires TocOk(t, toc, toctoc) && n <= 1024
    ensures var l := ListedSlots(toc, n);
            && |Listed(t, toc, n)| == |l|
            && forall i: nat | i < |l| :: l[i] < NMAX && Listed(t, toc, n)[i] == t[l[i]].value
  {
    if n > 0 { ListedValues(t, toc, toctoc, n - 1); }
  }

  /** When every add was visible, a snapshot lists each stored key's value exactly once, in slot order. */
  lemma SnapshotListsAll(t: seq<Cell>, at: map<nat, nat>, toc: seq<Word>, toctoc: Word)
    requires Rep(t, at, toc, toctoc, true)
    ensures var l := ListedSlots(toc, 1024);
            && (forall i: nat | i < |l| :: l[i] < NMAX)
            && (forall i, j | 0 <= i < j < |l| :: l[i] < l[j])
            && |Listed(t, toc, 1024)| == |l| == |at|
            && (forall k | k in at :: at[k] in l)
            && (forall i: nat | i < |l| :: t[l[i]].key in at && Listed(t, toc, 1024)[i] == Contents(t, at)[t[l[i]].key])
  {
    var l := ListedSlots(toc, 1024);
    ListedSlotsOrdered(toc, 1024);
    ListedValues(t, toc, toctoc, 1024);
    forall k | k in at
      ensures at[k] in l
    {
      assert Used(t, at[k]);
    }
    ListLength(t, at, l);
  }

  ghost predicate ListsIndex(t: seq<Cell>, at: map<nat, nat>, l: seq<nat>) {
    && |t| == NMAX && (forall i: nat | i < |l| :: l[i] < NMAX && t[l[i]].key in at && at[t[l[i]].key] == l[i])
    && (forall i, j | 0 <= i < j < |l| :: l[i] < l[j])
    && forall k | k in at :: at[k] in l && at[k] < NMAX && t[at[k]].key == k
  }

  lemma WithoutLast(t: seq<Cell>, at: map<nat, nat>, l: seq<nat>, n: nat)
    requires ListsIndex(t, at, l) && |l| == n + 1
    ensures l[n] < NMAX && t[l[n]].key in at && ListsIndex(t, at - {t[l[n]].key}, l[..n])
  {
    var k := t[l[n]].key;
    forall x | x in at && x != k
      ensures at[x] in l[..n]
    {
      var i: nat :| i < |l| && l[i] == at[x];
      assert i != n;
      assert l[..n][i] == at[x];
    }
    forall i: nat | i < n
      ensures t[l[i]].key != k
    {
      assert l[i] < l[n];
    }
  }

  // A duplicate-free list of the slots in use is as long as the index.
  lemma {:induction false} ListLength(t: seq<Cell>, at: map<nat, nat>, l: seq<nat>)
    requires ListsIndex(t, at, l)
    ensures |l| == |at|
    decreases |l|
  {
    if |l| == 0 {
      assert at.Keys == {};
    } else {
      hide ListsIndex;
      var n := |l| - 1;
      WithoutLast(t, at, l, n);
      OneKeyLess(at, at - {t[l[n]].key}, t[l[n]].key);
      ListLength(t, at - {t[l[n]].key}, l[..n]);
    }
  }

  /** Every slot in use is listed. */
  ghost predicate AllListed(t: seq<Cell>, toc: seq<Word>)
    requires |t| == NMAX && |toc| == 32
  {
    forall i: Slot :: Marked(toc, i) <==> Used(t, i)
  }

  // Setting the bit of slot i in both levels when the slot comes into use.
  lemma MarkSlot(t: seq<Cell>, t': seq<Cell>, toc: seq<Word>, toctoc: Word, i: Slot)
    requires TocOk(t, toc, toctoc) && |t'| == NMAX && Used(t', i)
    requires forall j: Slot | j != i :: Used(t', j) == Used(t, j)
    ensures var toc' := toc[i / 32 := toc[i / 32] + {i % 32}];
            && TocOk(t', toc', toctoc + {i / 32})
            && (AllListed(t, toc) ==> AllListed(t', toc'))
  {
    var toc' := toc[i / 32 := toc[i / 32] + {i % 32}];
    assert i % 32 in toc'[i / 32];
    forall j: nat | j < 1024
      ensures Marked(toc', j) <==> Marked(toc, j) || j == i
    {}
  }

  // Clearing it when the slot is vacated.
  lemma UnmarkSlot(t: seq<Cell>, t': seq<Cell>, toc: seq<Word>, toctoc: Word, i: Slot)
    requires TocOk(t, toc, toctoc) && |t'| == NMAX && !Used(t', i)
    requires forall j: Slot | j != i :: Used(t', j) == Used(t, j)
    ensures var toc' := toc[i / 32 := toc[i / 32] - {i % 32}];
            && TocOk(t', toc', if toc'[i / 32] == {} then toctoc - {i / 32} else toctoc)
            && (AllListed(t, toc) ==> AllListed(t', toc'))
            && forall j: nat | j < 1024 :: Marked(toc', j) <==> Marked(toc, j) && j != i
  {
    var toc' := toc[i / 32 := toc[i / 32] - {i % 32}];
    forall j: nat | j < 1024
      ensures Marked(toc', j) <==> Marked(toc, j) && j != i
    {}
  }

  // Entries come and go without their bits when a value is replaced or added hidden.
  lemma TocGrows(t: seq<Cell>, t': seq<Cell>, toc: seq<Word>, toctoc: Word)
    requires TocOk(t, toc, toctoc) && |t'| == NMAX
    requires forall j: Slot | Used(t, j) :: Used(t', j)
    ensures TocOk(t', toc, toctoc)
    ensures (forall j: Slot :: Used(t, j) == Used(t', j)) && AllListed(t, toc) ==> AllListed(t', toc)
  {}

  // --- Deletion, step by step

  /** The table `cur` with index `at` still stores what `t` with index `at0` stored for the
      remaining keys, in the same set of slots, and is untouched past slot j. */
  ghost predicate KeepsValues(t: seq<Cell>, at0: map<nat, nat>, first: Slot,
                              cur: seq<Cell>, at: map<nat, nat>, j: Slot)
  {
    && |t| == NMAX && |cur| == NMAX && at.Keys <= at0.Keys
    && (forall k | k in at :: at[k] < NMAX && at0[k] < NMAX && cur[at[k]].value == t[at0[k]].value)
    && (forall s: Slot :: Used(cur, s) == Used(t, s))
    && (forall s: Slot :: Dist(first, s) > Dist(first, j) ==> cur[s] == t[s])
  }

  /** All the given slots agree in their snapshot bit. */
  ghost predicate SameMarks(toc: seq<Word>, slots: seq<Slot>)
    requires |toc| == 32
  {
    forall m: nat | m < |slots| :: Marked(toc, slots[m]) == Marked(toc, slots[0])
  }

  /** Moving keys from `at0` to `at` leaves each with the bit it had. */
  ghost predicate MarksFollow(toc: seq<Word>, at0: map<nat, nat>, at: map<nat, nat>)
    requires |toc| == 32
  {
    && at.Keys <= at0.Keys
    && (forall k | k in at :: at[k] < 1024 && at0[k] < 1024)
    && (forall k | k in at :: Marked(toc, at[k]) == Marked(toc, at0[k]))
  }

  /** Every remaining key is listed after the call exactly when it was before. */
  ghost predicate KeepsVisibility(toc0: seq<Word>, at0: map<nat, nat>, toc: seq<Word>, at: map<nat, nat>)
    requires |toc0| == 32 && |toc| == 32
  {
    && at.Keys <= at0.Keys
    && (forall k | k in at :: at[k] < 1024 && at0[k] < 1024)
    && (forall k | k in at :: Marked(toc, at[k]) == Marked(toc0, at0[k]))
  }

  lemma VisibilityAfterDelete(toc0: seq<Word>, toc: seq<Word>, at0: map<nat, nat>, at: map<nat, nat>, hole: Slot)
    requires |toc0| == 32 && |toc| == 32
    requires forall j: nat | j < 1024 :: Marked(toc, j) <==> Marked(toc0, j) && j != hole
    requires forall k | k in at :: at[k] < NMAX && at[k] != hole
    ensures KeepsVisibility(toc0, at0, toc, at) <==> MarksFollow(toc0, at0, at)
  {}

  // Moving one more key along the holes.
  lemma MarksFollowMove(toc: seq<Word>, at0: map<nat, nat>, at: map<nat, nat>,
                        holes: seq<Slot>, k: nat, hole: Slot, n: Slot)
    requires |toc| == 32 && |holes| > 0 && hole == holes[|holes| - 1]
    requires at.Keys <= at0.Keys && forall k | k in at :: at[k] < NMAX && at0[k] < NMAX
    requires k in at && at0[k] == n == at[k]
    requires MarksFollow(toc, at0, at) <==> SameMarks(toc, holes)
    ensures MarksFollow(toc, at0, at[k := hole]) <==> SameMarks(toc, holes + [n])
  {
    hide Marked;
    var at' := at[k := hole];
    var holes' := holes + [n];
    assert SameMarks(toc, holes') ==> SameMarks(toc, holes) && Marked(toc, hole) == Marked(toc, n) by {
      assert forall m: nat | m < |holes| :: holes'[m] == holes[m];
      assert holes'[|holes|] == n;
    }
    assert MarksFollow(toc, at0, at') ==> MarksFollow(toc, at0, at) by {
      assert forall x | x in at && x != k :: x in at' && at'[x] == at[x];
    }
    assert MarksFollow(toc, at0, at') ==> Marked(toc, at'[k]) == Marked(toc, at0[k]);
    if SameMarks(toc, holes) && Marked(toc, hole) == Marked(toc, n) {
      assert forall x | x in at' && x != k :: x in at && at'[x] == at[x];
    }
  }

  /** State of the loop that deletes `key` from table t: `cur` and `at` are the table and its index
      so far, `holes` the slots vacated so far with the current one last, j the last slot seen. */
  ghost predicate Deleting(t: seq<Cell>, at0: map<nat, nat>, key: nat, end: Slot, toc: seq<Word>,
                           cur: seq<Cell>, at: map<nat, nat>, holes: seq<Slot>, j: Slot)
  {
    && |t| == NMAX && |toc| == 32 && Indexes(t, at0) && key in at0
    && EndsRun(t, at0[key], end)
    && |holes| > 0
    && var first: Slot, hole: Slot := at0[key], holes[|holes| - 1];
    && ShiftInv(cur, at, hole, j)
    && Dist(first, hole) <= Dist(first, j) < Dist(first, end)
    && at.Keys == at0.Keys - {key}
    && KeepsValues(t, at0, first, cur, at, j)
    && Holes(t, first, first, end) == holes[..|holes| - 1] + Holes(t, hole, j, end)
    && (MarksFollow(toc, at0, at) <==> SameMarks(toc, holes))
  }

  lemma DeleteStarts(t: seq<Cell>, at0: map<nat, nat>, key: nat, end: Slot, toc: seq<Word>)
    requires TableOk(t, at0) && key in at0 && EndsRun(t, at0[key], end) && |toc| == 32
    ensures Deleting(t, at0, key, end, toc, t, at0 - {key}, [at0[key]], at0[key])
  {
    hide Reachable, Holes;
    ShiftStart(t, at0, key);
  }

  lemma StartDelete(t: seq<Cell>, at: map<nat, nat>, toc: seq<Word>, toctoc: Word, allVisible: bool, key: nat) returns (end: Slot)
    requires Rep(t, at, toc, toctoc, allVisible) && |at| < NMAX && key in at
    ensures at[key] < NMAX && EndsRun(t, at[key], end)
    ensures Deleting(t, at, key, end, toc, t, at - {key}, [at[key]], at[key])
  {
    hide Reachable, AllListed, Deleting, EndsRun;
    end := RunEnd(t, at, at[key]);
    DeleteStarts(t, at, key, end, toc);
  }

  lemma StepWithin(a: Slot, j: Slot, end: Slot)
    requires Dist(a, j) < Dist(a, end)
    ensures Dist(a, Next(j)) == Dist(a, j) + 1
    ensures Dist(a, Next(j)) == Dist(a, end) <==> Next(j) == end
    ensures Dist(Next(j), end) < Dist(j, end)
  {}

  // The next slot, when in use, is untouched so far and holds a remaining key.
  lemma NextInRun(t: seq<Cell>, at0: map<nat, nat>, key: nat, end: Slot, toc: seq<Word>,
                  cur: seq<Cell>, at: map<nat, nat>, holes: seq<Slot>, j: Slot)
    requires Deleting(t, at0, key, end, toc, cur, at, holes, j)
    ensures var n, first, hole := Next(j), at0[key], holes[|holes| - 1];
            && j != end && n != hole && cur[n] == t[n]
            && Dist(first, n) == Dist(first, j) + 1
            && Dist(n, end) < Dist(j, end)
            && Used(cur, hole) && at0[key] < NMAX
            && (Used(cur, n) ==> n != end && Dist(first, n) < Dist(first, end)
                                 && t[n].key in at && at0[t[n].key] == n == at[t[n].key])
            && (!Used(cur, n) ==> n == end)
  {
    hide ReachableButFor, MarksFollow, SameMarks, Holes;
    var first: Slot, hole := at0[key], holes[|holes| - 1];
    StepWithin(first, j, end);
    assert Used(t, hole);
    assert Dist(first, Next(j)) < Dist(first, end) ==> Used(t, Next(j));
  }

  lemma ValuesAfterMove(t: seq<Cell>, at0: map<nat, nat>, first: Slot,
                        cur: seq<Cell>, at: map<nat, nat>, j: Slot, hole: Slot, n: Slot)
    requires KeepsValues(t, at0, first, cur, at, j) && Used(cur, hole) && Used(cur, n)
    requires cur[n].key in at && at[cur[n].key] == n
    requires Dist(first, hole) <= Dist(first, j) < Dist(first, n)
    requires forall k | k in at :: cur[hole := cur[n]][at[cur[n].key := hole][k]].value == cur[at[k]].value
    ensures KeepsValues(t, at0, first, cur[hole := cur[n]], at[cur[n].key := hole], n)
  {
    hide Dist;
    var at' := at[cur[n].key := hole];
    assert at'.Keys == at.Keys;
    assert forall k | k in at' :: k in at;
  }

  lemma DeleteMoves(t: seq<Cell>, at0: map<nat, nat>, key: nat, end: Slot, toc: seq<Word>,
                    cur: seq<Cell>, at: map<nat, nat>, holes: seq<Slot>, j: Slot)
    requires Deleting(t, at0, key, end, toc, cur, at, holes, j) && Used(cur, Next(j))
    requires MustMove(Home(cur[Next(j)].key), holes[|holes| - 1], Next(j))
    ensures var n, hole := Next(j), holes[|holes| - 1];
            Deleting(t, at0, key, end, toc, cur[hole := cur[n]], at[cur[n].key := hole], holes + [n], n)
  {
    hide MarksFollow, SameMarks, MustMove, Home, Next, Dist, Indexes, EndsRun, ShiftInv;
    var n, hole, first: Slot := Next(j), holes[|holes| - 1], at0[key];
    NextInRun(t, at0, key, end, toc, cur, at, holes, j);
    ShiftMove(cur, at, hole, j);
    ValuesAfterMove(t, at0, first, cur, at, j, hole, n);
    hide KeepsValues;
    MarksFollowMove(toc, at0, at, holes, t[n].key, hole, n);
    assert (holes + [n])[..|holes|] == holes == holes[..|holes| - 1] + [hole];
  }

  lemma DeleteSkips(t: seq<Cell>, at0: map<nat, nat>, key: nat, end: Slot, toc: seq<Word>,
                    cur: seq<Cell>, at: map<nat, nat>, holes: seq<Slot>, j: Slot)
    requires Deleting(t, at0, key, end, toc, cur, at, holes, j) && Used(cur, Next(j))
    requires !MustMove(Home(cur[Next(j)].key), holes[|holes| - 1], Next(j))
    ensures Deleting(t, at0, key, end, toc, cur, at, holes, Next(j))
  {
    hide MarksFollow, SameMarks, MustMove, Home, Next, Dist, Indexes, EndsRun, ShiftInv;
    NextInRun(t, at0, key, end, toc, cur, at, holes, j);
    ShiftSkip(cur, at, holes[|holes| - 1], j);
  }

  lemma DeleteEnds(t: seq<Cell>, at0: map<nat, nat>, key: nat, end: Slot, toc: seq<Word>,
                   cur: seq<Cell>, at: map<nat, nat>, holes: seq<Slot>, j: Slot)
    requires Deleting(t, at0, key, end, toc, cur, at, holes, j) && !Used(cur, Next(j))
    ensures var hole: Slot := holes[|holes| - 1];
            && TableOk(cur[hole := FREE], at)
            && Contents(cur[hole := FREE], at) == Contents(t, at0) - {key}
            && |at0| == |at| + 1
            && holes == Holes(t, at0[key], at0[key], end)
            && (MarksFollow(toc, at0, at) <==> SameMarks(toc, holes))
            && (forall s: Slot :: Used(cur[hole := FREE], s) <==> Used(t, s) && s != hole)
            && (forall k | k in at :: at[k] < NMAX && at[k] != hole)
  {
    hide MarksFollow, SameMarks, Home, Dist, Next, EndsRun, Reachable, ReachableButFor;
    var hole: Slot := holes[|holes| - 1];
    NextInRun(t, at0, key, end, toc, cur, at, holes, j);
    ShiftDone(cur, at, hole, j);
    assert holes == holes[..|holes| - 1] + [hole];
    assert at0.Keys == at.Keys + {key};
    ContentsAfterDelete(t, at0, key, cur, at, hole);
    OneKeyLess(at0, at, key);
  }

  lemma ContentsAfterDelete(t: seq<Cell>, at0: map<nat, nat>, key: nat,
                            cur: seq<Cell>, at: map<nat, nat>, hole: Slot)
    requires |t| == NMAX && |cur| == NMAX && at0.Keys == at.Keys + {key} && key !in at
    requires forall k | k in at0 :: at0[k] < NMAX
    requires forall k | k in at :: at[k] < NMAX && at[k] != hole && cur[at[k]].value == t[at0[k]].value
    ensures Contents(cur[hole := FREE], at) == Contents(t, at0) - {key}
  {}

  lemma OneKeyLess(at0: map<nat, nat>, at: map<nat, nat>, key: nat)
    requires at0.Keys == at.Keys + {key} && key !in at
    ensures |at0| == |at| + 1
  {
    assert |at0.Keys| == |at.Keys| + 1;
  }

  /** A snapshot record under construction, with room for `capacity` entries. */
  class SnapshotBuilder {
    const capacity: nat
    var data: seq<Entry>
    var skipped: nat

    ghost predicate Valid()
      reads this
    {
      |data| <= capacity
    }

    constructor (capacity: nat)
      ensures Valid() && data == [] && skipped == 0 && this.capacity == capacity
    {
      this.capacity := capacity;
      data, skipped := [], 0;
    }

    method Append(e: Entry)
      requires Valid()
      modifies this
      ensures Valid()
      ensures data == Filled(capacity, old(data), [e])
      ensures |data| + skipped == |old(data)| + old(skipped) + 1
    {
      if |data| < capacity {
        data := data + [e];
      } else {
        skipped := skipped + 1;
      }
    }
  }

  /** What a record of the given capacity holds after more entries were offered. */
  function Filled(capacity: nat, data: seq<Entry>, more: seq<Entry>): seq<Entry>
    requires |data| <= capacity
  {
    if |more| <= capacity - |data| then data + more else data + more[..capacity - |data|]
  }

  lemma FilledTwice(capacity: nat, data: seq<Entry>, a: seq<Entry>, b: seq<Entry>)
    requires |data| <= capacity
    ensures |Filled(capacity, data, a)| <= capacity
    ensures Filled(capacity, Filled(capacity, data, a), b) == Filled(capacity, data, a + b)
  {
    hide Filled;
    FilledAt(capacity, data, a);
    FilledAt(capacity, Filled(capacity, data, a), b);
    FilledAt(capacity, data, a + b);
  }

  lemma FilledAt(capacity: nat, data: seq<Entry>, more: seq<Entry>)
    requires |data| <= capacity
    ensures var r := Filled(capacity, data, more);
            && |r| == (if |data| + |more| <= capacity then |data| + |more| else capacity)
            && forall i: nat | i < |r| :: r[i] == if i < |data| then data[i] else more[i - |data|]
  {
  }

  /** Representation invariant over the plain values of the fields. */
  ghost predicate Rep(t: seq<Cell>, at: map<nat, nat>, toc: seq<Word>, toctoc: Word, allVisible: bool) {
    && TableOk(t, at)
    && TocOk(t, toc, toctoc)
    && (allVisible ==> AllListed(t, toc))
  }

  lemma RepEmpty(t: seq<Cell>, toc: seq<Word>)
    requires |t| == NMAX && |toc| == 32
    requires (forall i: Slot :: t[i] == FREE) && forall w: nat | w < 32 :: toc[w] == {}
    ensures Rep(t, map[], toc, {}, true)
  {}

  lemma RepAdd(t: seq<Cell>, at: map<nat, nat>, toc: seq<Word>, toctoc: Word, allVisible: bool,
               i: Slot, key: nat, value: Entry)
    requires Rep(t, at, toc, toctoc, allVisible) && key != INV_ID && key !in at && !Used(t, i)
    requires forall j: Slot :: Dist(Home(key), j) < Dist(Home(key), i) ==> Used(t, j)
    ensures var t', at' := t[i := Cell(key, value)], at[key := i];
            && Rep(t', at', toc, toctoc, false)
            && Rep(t', at', toc[i / 32 := toc[i / 32] + {i % 32}], toctoc + {i / 32}, allVisible)
            && Contents(t', at') == Contents(t, at)[key := value]
  {
    hide TocOk, AllListed, Contents, Dist, Home;
    AddCell(t, at, i, key, value);
    MarkSlot(t, t[i := Cell(key, value)], toc, toctoc, i);
    TocGrows(t, t[i := Cell(key, value)], toc, toctoc);
  }

  lemma RepUpdate(t: seq<Cell>, at: map<nat, nat>, toc: seq<Word>, toctoc: Word, allVisible: bool,
                  key: nat, value: Entry)
    requires Rep(t, at, toc, toctoc, allVisible) && key in at
    ensures at[key] < |t|
    ensures Contents(t, at)[key] == t[at[key]].value
    ensures Rep(t[at[key] := Cell(key, value)], at, toc, toctoc, allVisible)
    ensures Contents(t[at[key] := Cell(key, value)], at) == Contents(t, at)[key := value]
  {
    hide Reachable, TocOk, AllListed;
    UpdateCell(t, at, key, value);
    TocGrows(t, t[at[key] := Cell(key, value)], toc, toctoc);
  }

  lemma RepDelete(t: seq<Cell>, t': seq<Cell>, at: map<nat, nat>, at': map<nat, nat>,
                  toc: seq<Word>, toctoc: Word, allVisible: bool, i: Slot)
    requires Rep(t, at, toc, toctoc, allVisible) && TableOk(t', at')
    requires forall s: Slot :: Used(t', s) <==> Used(t, s) && s != i
    requires forall k | k in at' :: at'[k] < NMAX && at'[k] != i
    ensures var toc' := toc[i / 32 := toc[i / 32] - {i % 32}];
            && Rep(t', at', toc', if toc'[i / 32] == {} then toctoc - {i / 32} else toctoc, allVisible)
            && (KeepsVisibility(toc, at, toc', at') <==> MarksFollow(toc, at, at'))
  {
    hide Indexes, Reachable, AllListed, KeepsVisibility, MarksFollow;
    UnmarkSlot(t, t', toc, toctoc, i);
    VisibilityAfterDelete(toc, toc[i / 32 := toc[i / 32] - {i % 32}], at, at', i);
  }

  /** A new key goes into the first free slot of its probe sequence, nothing else moves, and the slot is
      listed if and only if the entry is to be included in snapshots. */
  ghost predicate Placed(t: seq<Cell>, at: map<nat, nat>, toc: seq<Word>, t': seq<Cell>, at': map<nat, nat>, toc': seq<Word>,
                         key: nat, value: Entry, shown: bool)
  {
    && |t| == NMAX && |toc| == 32 && key in at' && at'[key] < NMAX
    && var i: Slot := at'[key];
       && at' == at[key := i] && t' == t[i := Cell(key, value)] && !Used(t, i)
       && (forall j: Slot :: Dist(Home(key), j) < Dist(Home(key), i) ==> Used(t, j))
       && toc' == if shown then toc[i / 32 := toc[i / 32] + {i % 32}] else toc
  }

  lemma PlacedEitherWay(t: seq<Cell>, at: map<nat, nat>, toc: seq<Word>, i: Slot, key: nat, value: Entry)
    requires |t| == NMAX && |toc| == 32 && !Used(t, i)
    requires forall j: Slot :: Dist(Home(key), j) < Dist(Home(key), i) ==> Used(t, j)
    ensures var t', at' := t[i := Cell(key, value)], at[key := i];
            && Placed(t, at, toc, t', at', toc[i / 32 := toc[i / 32] + {i % 32}], key, value, true)
            && Placed(t, at, toc, t', at', toc, key, value, false)
  {
  }

  lemma SomeFree(t: seq<Cell>, at: map<nat, nat>, toc: seq<Word>, toctoc: Word, allVisible: bool) returns (end: Slot)
    requires Rep(t, at, toc, toctoc, allVisible) && |at| < NMAX
    ensures |t| == NMAX && !Used(t, end)
  {
    hide TocOk, AllListed, Reachable;
    FreeSlotExists(t, at);
    end :| !Used(t, end);
  }

  lemma AtHome(home: Slot, end: Slot)
    ensures Dist(home, home) <= Dist(home, end) && forall j: Slot :: !(Dist(home, j) < Dist(home, home))
  {
  }

  // One probe further, towards a free slot.
  lemma ProbeOn(t: seq<Cell>, home: Slot, i: Slot, end: Slot)
    requires |t| == NMAX && Used(t, i) && !Used(t, end) && Dist(home, i) <= Dist(home, end)
    requires forall j: Slot :: Dist(home, j) < Dist(home, i) ==> Used(t, j)
    ensures Dist(home, Next(i)) <= Dist(home, end) && Dist(Next(i), end) < Dist(i, end)
    ensures forall j: Slot :: Dist(home, j) < Dist(home, Next(i)) ==> Used(t, j) && (j == i || Dist(home, j) < Dist(home, i))
  {
    forall j: Slot | Dist(home, j) < Dist(home, Next(i)) ensures Used(t, j) && (j == i || Dist(home, j) < Dist(home, i)) {
      assert j == i || Dist(home, j) < Dist(home, i);
    }
  }

  class Blackboard {
    const hashtable: array<Cell>
    const toc: array<Word>
    var toctoc: Word
    var numEntries: nat
    var maxNumEntries: nat
    var numSkipped: nat
    var ucount: nat
    ghost var at: map<nat, nat>       // slot of each stored key
    ghost var allVisible: bool        // every add so far was included in snapshots

    ghost predicate Valid()
      reads this, hashtable, toc
    {
      && hashtable.Length == NMAX && toc.Length == 32
      && Rep(hashtable[..], at, toc[..], toctoc, allVisible)
      && numEntries == |at| <= maxNumEntries <= CAPACITY
    }

    /** The bounded map this table refines. */
    ghost function Map(): map<nat, Entry>
      requires Valid()
      reads this, hashtable, toc
    {
      Contents(hashtable[..], at)
    }

    /** What a snapshot lists. */
    ghost function Snapshot(): seq<Entry>
      requires Valid()
      reads this, hashtable, toc
    {
      Listed(hashtable[..], toc[..], 1024)
    }

    constructor ()
      ensures Valid() && fresh(hashtable) && fresh(toc)
      ensures Map() == map[] && ucount == 0 && numSkipped == 0 && allVisible
    {
      hashtable := new Cell[NMAX](_ => FREE);
      toc := new Word[32](_ => {});
      toctoc, numEntries, maxNumEntries, numSkipped, ucount := {}, 0, 0, 0, 0;
      at, allVisible := map[], true;
      new;
      hide Rep;
      RepEmpty(hashtable[..], toc[..]);
    }

    /** Linear probe from the key's home slot: stops at the key if stored, otherwise at
        the first free slot of the probe sequence. */
    method FindExistingEntry(key: nat) returns (i: Slot)
      requires Valid() && key != INV_ID
      ensures key in at <==> hashtable[i].key == key
      ensures key in at ==> i == at[key]
      ensures key !in at ==> !Used(hashtable[..], i)
      ensures forall j: Slot :: Dist(Home(key), j) < Dist(Home(key), i) ==> Used(hashtable[..], j)
    {
      hide Rep, Dist;
      ghost var t := hashtable[..];
      ghost var end := SomeFree(t, at, toc[..], toctoc, allVisible);
      i := Home(key);
      AtHome(i, end);
      while hashtable[i].key != key && hashtable[i].key != INV_ID
        invariant Dist(Home(key), i) <= Dist(Home(key), end)
        invariant forall j: Slot :: Dist(Home(key), j) < Dist(Home(key), i) ==> Used(t, j) && t[j].key != key
        decreases Dist(i, end)
      {
        ProbeOn(t, Home(key), i, end);
        i := (i + 1) % NMAX;
      }
      RepParts(t, at, toc[..], toctoc, allVisible);
      hide TableOk;
      StopsAtKey(t, at, key, i);
    }

    method FindFreeSlot(key: nat) returns (i: Slot)
      requires Valid() && key != INV_ID
      ensures !Used(hashtable[..], i)
      ensures forall j: Slot :: Dist(Home(key), j) < Dist(Home(key), i) ==> Used(hashtable[..], j)
    {
      hide Rep, Dist;
      ghost var t := hashtable[..];
      ghost var end := SomeFree(t, at, toc[..], toctoc, allVisible);
      i := Home(key);
      AtHome(i, end);
      while hashtable[i].key != INV_ID
        invariant Dist(Home(key), i) <= Dist(Home(key), end)
        invariant forall j: Slot :: Dist(Home(key), j) < Dist(Home(key), i) ==> Used(t, j)
        decreases Dist(i, end)
      {
        ProbeOn(t, Home(key), i, end);
        i := (i + 1) % NMAX;
      }
    }

    method Get(key: nat) returns (e: Entry)
      requires Valid() && key != INV_ID
      ensures e == if key in Map() then Map()[key] else NoEntry
    {
      hide Rep, Dist, Home;
      var i := FindExistingEntry(key);
      if hashtable[i].key != key {
        return NoEntry;
      }
      return hashtable[i].value;
    }

    method MarkToc(i: Slot)
      requires toc.Length == 32
      modifies this`toctoc, toc
      ensures toc[..] == old(toc[..][i / 32 := toc[i / 32] + {i % 32}])
      ensures toctoc == old(toctoc) + {i / 32}
    {
      toc[i / 32] := toc[i / 32] + {i % 32};
      toctoc := toctoc + {i / 32};
    }

    method UnmarkToc(i: Slot)
      requires toc.Length == 32
      modifies this`toctoc, toc
      ensures toc[..] == old(toc[..][i / 32 := toc[i / 32] - {i % 32}])
      ensures toctoc == if toc[i / 32] == {} then old(toctoc) - {i / 32} else old(toctoc)
    {
      toc[i / 32] := toc[i / 32] - {i % 32};
      if toc[i / 32] == {} {
        toctoc := toctoc - {i / 32};
      }
    }

    method Add(key: nat, value: Entry, includeInSnapshots: bool)
      requires Valid() && key != INV_ID && key !in at
      modifies this, hashtable, toc
      ensures Valid() && ucount == old(ucount)
      ensures Map() == BoundedSet(old(Map()), key, value)
      ensures numSkipped == old(numSkipped) + if Fits(old(Map()), key) then 0 else 1
      ensures old(allVisible) && includeInSnapshots ==> allVisible
      ensures Fits(old(Map()), key) ==>
        Placed(old(hashtable[..]), old(at), old(toc[..]), hashtable[..], at, toc[..], key, value, includeInSnapshots)
    {
      hide Rep, Contents, Dist, Home, Placed;
      var i := FindFreeSlot(key);
      if numEntries + (NMAX / 10 + 10) > NMAX {
        numSkipped := numSkipped + 1;
        return;
      }
      ghost var t, c := hashtable[..], toc[..];
      RepAdd(t, at, c, toctoc, allVisible, i, key, value);
      PlacedEitherWay(t, at, c, i, key, value);
      hashtable[i] := Cell(key, value);
      assert hashtable[..] == t[i := Cell(key, value)];
      at := at[key := i];
      if includeInSnapshots {
        MarkToc(i);
      } else {
        allVisible := false;
      }
      numEntries := numEntries + 1;
      maxNumEntries := if numEntries > maxNumEntries then numEntries else maxNumEntries;
    }

    method Set(key: nat, value: Entry, includeInSnapshots: bool)
      requires Valid() && key != INV_ID
      modifies this, hashtable, toc
      ensures Valid() && ucount == old(ucount) + 1
      ensures Map() == BoundedSet(old(Map()), key, value)
      ensures numSkipped == old(numSkipped) + if Fits(old(Map()), key) then 0 else 1
      ensures old(allVisible) && includeInSnapshots ==> allVisible
      ensures key in old(at) ==> at == old(at) && toc[..] == old(toc[..])
      ensures key !in old(at) && Fits(old(Map()), key) ==>
        Placed(old(hashtable[..]), old(at), old(toc[..]), hashtable[..], at, toc[..], key, value, includeInSnapshots)
    {
      hide Rep, Contents, Dist, Home, Placed;
      var i := FindExistingEntry(key);
      if hashtable[i].key == key {
        ghost var t := hashtable[..];
        RepUpdate(t, at, toc[..], toctoc, allVisible, key, value);
        hashtable[i] := Cell(key, value);
        assert hashtable[..] == t[i := Cell(key, value)];
      } else {
        Add(key, value, includeInSnapshots);
      }
      ucount := ucount + 1;
    }

    method Exchange(key: nat, value: Entry, includeInSnapshots: bool) returns (e: Entry)
      requires Valid() && key != INV_ID
      modifies this, hashtable, toc
      ensures Valid() && ucount == old(ucount) + 1
      ensures Map() == BoundedSet(old(Map()), key, value)
      ensures e == if key in old(Map()) then old(Map())[key] else NoEntry
      ensures numSkipped == old(numSkipped) + if Fits(old(Map()), key) then 0 else 1
      ensures old(allVisible) && includeInSnapshots ==> allVisible
    {
      hide Rep, Contents, Dist, Home;
      var i := FindExistingEntry(key);
      e := NoEntry;
      if hashtable[i].key == key {
        e := hashtable[i].value;
        ghost var t := hashtable[..];
        RepUpdate(t, at, toc[..], toctoc, allVisible, key, value);
        hashtable[i] := Cell(key, value);
        assert hashtable[..] == t[i := Cell(key, value)];
      } else {
        Add(key, value, includeInSnapshots);
      }
      ucount := ucount + 1;
    }

    /** The shift loop: closes the gap left at slot `first` by moving later entries of its run
        back, and returns the slot that is vacant in the end with the index of the new table. */
    method ShiftBack(key: nat, first: Slot) returns (hole: Slot, ghost idx: map<nat, nat>, ghost end: Slot)
      requires Valid() && key in at && at[key] == first
      modifies hashtable
      ensures EndsRun(old(hashtable[..]), first, end)
      ensures var holes := Holes(old(hashtable[..]), first, first, end);
              && hole == holes[|holes| - 1]
              && (MarksFollow(toc[..], at, idx) <==> SameMarks(toc[..], holes))
      ensures var t' := hashtable[..][hole := FREE];
              && TableOk(t', idx)
              && Contents(t', idx) == Contents(old(hashtable[..]), at) - {key}
              && (forall s: Slot :: Used(t', s) <==> Used(old(hashtable[..]), s) && s != hole)
      ensures |at| == |idx| + 1
      ensures forall k | k in idx :: idx[k] < NMAX && idx[k] != hole
    {
      hide Rep, TableOk, Contents, Deleting, SameMarks, MarksFollow, Holes, EndsRun, Dist;
      ghost var t, c := hashtable[..], toc[..];
      end := StartDelete(t, at, c, toctoc, allVisible, key);
      idx := at - {key};
      hole := first;
      var j: Slot := first;
      ghost var holes: seq<Slot> := [first];
      while true
        invariant Deleting(t, at, key, end, c, hashtable[..], idx, holes, j)
        invariant |holes| > 0 && holes[|holes| - 1] == hole
        decreases Dist(j, end)
      {
        ghost var last, cur := j, hashtable[..];
        NextInRun(t, at, key, end, c, cur, idx, holes, j);
        j := (j + 1) % NMAX;
        if hashtable[j].key == INV_ID {
          DeleteEnds(t, at, key, end, c, cur, idx, holes, last);
          break;
        }
        var k := Home(hashtable[j].key);
        if (j > hole && (k <= hole || k > j)) || (j < hole && (k <= hole && k > j)) {
          DeleteMoves(t, at, key, end, c, cur, idx, holes, last);
          idx := idx[hashtable[j].key := hole];
          hashtable[hole] := hashtable[j];
          assert hashtable[..] == cur[hole := cur[j]];
          holes := holes + [j];
          hole := j;
        } else {
          DeleteSkips(t, at, key, end, c, cur, idx, holes, last);
        }
      }
    }

    /** Deletes a key by shifting later entries of its run back. The bits do not move with the
        entries, so the remaining keys keep their snapshot visibility exactly when the slots
        of the shift agreed in their bits beforehand. */
    method Del(key: nat) returns (ghost end: Slot)
      requires Valid() && key != INV_ID
      modifies this, hashtable, toc
      ensures Valid()
      ensures Map() == old(Map()) - {key}
      ensures ucount == old(ucount) + if key in old(Map()) then 1 else 0
      ensures numSkipped == old(numSkipped) && allVisible == old(allVisible)
      ensures key in old(at) ==>
        && EndsRun(old(hashtable[..]), old(at)[key], end)
        && (KeepsVisibility(old(toc[..]), old(at), toc[..], at)
            <==> SameMarks(old(toc[..]), Holes(old(hashtable[..]), old(at)[key], old(at)[key], end)))
    {
      hide Rep, TableOk, Contents, Used, SameMarks, MarksFollow, Holes, EndsRun, Dist, KeepsVisibility, Home, Marked;
      var i := FindExistingEntry(key);
      if hashtable[i].key != key {
        end := i;
        return;
      }
      end := DelAt(key, i);
    }

    method DelAt(key: nat, first: Slot) returns (ghost end: Slot)
      requires Valid() && key in at && at[key] == first
      modifies this, hashtable, toc
      ensures Valid() && Map() == old(Map()) - {key} && ucount == old(ucount) + 1
      ensures numSkipped == old(numSkipped) && allVisible == old(allVisible)
      ensures EndsRun(old(hashtable[..]), first, end)
      ensures KeepsVisibility(old(toc[..]), old(at), toc[..], at)
              <==> SameMarks(old(toc[..]), Holes(old(hashtable[..]), first, first, end))
    {
      hide Rep, TableOk, Contents, Used, SameMarks, MarksFollow, Holes, EndsRun, Dist, KeepsVisibility, Home, Marked;
      var i: Slot := first;
      ghost var t, c, at0 := hashtable[..], toc[..], at;
      i, at, end := ShiftBack(key, i);
      ghost var t' := hashtable[..][i := FREE];
      hashtable[i] := FREE;
      assert hashtable[..] == t';
      numEntries := numEntries - 1;
      ucount := ucount + 1;
      RepDelete(t, t', at0, at, c, toctoc, allVisible, i);
      UnmarkToc(i);
    }

    /** Del for callers that only care about the map. */
    method Unset(key: nat)
      requires Valid() && key != INV_ID
      modifies this, hashtable, toc
      ensures Valid() && Map() == old(Map()) - {key}
    {
      hide Rep, Contents, EndsRun, SameMarks, KeepsVisibility, Holes, Marked, Dist;
      var _ := Del(key);
    }

    /** The inner snapshot loop: offers the listed values of word i, lowest bit first. */
    method OfferWord(rec: SnapshotBuilder, i: nat, ghost data0: seq<Entry>, ghost n0: nat)
      requires Valid() && i < 32 && Offered(rec, data0, n0, Listed(hashtable[..], toc[..], 32 * i))
      modifies rec
      ensures Offered(rec, data0, n0, Listed(hashtable[..], toc[..], 32 * i + 32))
    {
      hide TableOk, AllListed, TocOk, Filled, Listed, Marked;
      ghost var t, c := hashtable[..], toc[..];
      var tmp := toc[i];
      ghost var low := 0;                     // bits below low are done
      while tmp != {}
        invariant 0 <= low <= 32
        invariant forall b: nat :: b in tmp <==> b in c[i] && low <= b
        invariant Offered(rec, data0, n0, Listed(t, c, 32 * i + low))
        decreases 32 - low
      {
        var j := FirstHighBit(tmp);
        j := j - 1;
        tmp := ClearBit(tmp, j);
        BitsSkipped(t, c, i, low, j);
        BitListed(t, c, toctoc, i, j);
        FilledTwice(rec.capacity, data0, Listed(t, c, 32 * i + j), [t[i * 32 + j].value]);
        rec.Append(hashtable[i * 32 + j].value);
        low := j + 1;
      }
      BitsSkipped(t, c, i, low, 32);
    }

    /** Walks both bitmap levels lowest bit first and offers each listed value to the record. */
    method TakeSnapshot(rec: SnapshotBuilder)
      requires Valid() && rec.Valid()
      modifies rec
      ensures rec.Valid()
      ensures rec.data == Filled(rec.capacity, old(rec.data), Snapshot())
      ensures |rec.data| + rec.skipped == |old(rec.data)| + old(rec.skipped) + |Snapshot()|
    {
      hide TableOk, AllListed;
      ghost var t, c, data0, n0 := hashtable[..], toc[..], rec.data, rec.skipped;
      var tmptoc := toctoc;
      ghost var lo := 0;                        // words below lo are done
      while tmptoc != {}
        invariant 0 <= lo <= 32
        invariant forall w: nat :: w in tmptoc <==> w in toctoc && lo <= w
        invariant Offered(rec, data0, n0, Listed(t, c, 32 * lo))
        decreases 32 - lo
      {
        var i := FirstHighBit(tmptoc);
        i := i - 1;
        tmptoc := ClearBit(tmptoc, i);
        WordsSkipped(t, c, toctoc, lo, i);
        OfferWord(rec, i, data0, n0);
        lo := i + 1;
      }
      WordsSkipped(t, c, toctoc, lo, 32);
    }
  }

  /** The record holds what it held at the start plus the offered entries, as far as they fit. */
  ghost predicate Offered(rec: SnapshotBuilder, data0: seq<Entry>, n0: nat, offered: seq<Entry>)
    reads rec
  {
    && |data0| <= rec.capacity
    && rec.Valid()
    && rec.data == Filled(rec.capacity, data0, offered)
    && |rec.data| + rec.skipped == |data0| + n0 + |offered|
  }

  lemma WordsSkipped(t: seq<Cell>, toc: seq<Word>, toctoc: Word, lo: nat, hi: nat)
    requires TocOk(t, toc, toctoc) && lo <= hi <= 32
    requires forall w: nat | lo <= w < hi :: w !in toctoc
    ensures Listed(t, toc, 32 * lo) == Listed(t, toc, 32 * hi)
  {
    forall i: nat | 32 * lo <= i < 32 * hi
      ensures !Marked(toc, i)
    {
      assert i / 32 !in toctoc;
    }
    ListedSkip(t, toc, 32 * lo, 32 * hi);
  }

  lemma BitListed(t: seq<Cell>, toc: seq<Word>, toctoc: Word, i: nat, j: nat)
    requires TocOk(t, toc, toctoc) && i < 32 && j in toc[i]
    ensures i * 32 + j < NMAX
    ensures Listed(t, toc, 32 * i + j + 1) == Listed(t, toc, 32 * i + j) + [t[i * 32 + j].value]
  {
    assert Marked(toc, i * 32 + j);
  }

  lemma BitsSkipped(t: seq<Cell>, toc: seq<Word>, i: nat, lo: nat, hi: nat)
    requires |t| == NMAX && |toc| == 32 && i < 32 && lo <= hi <= 32
    requires forall b: nat | lo <= b < hi :: b !in toc[i]
    ensures Listed(t, toc, 32 * i + lo) == Listed(t, toc, 32 * i + hi)
  {
    ListedSkip(t, toc, 32 * i + lo, 32 * i + hi);
  }

  // --- Whole runs

  datatype BoardOp = SetOp(key: nat, value: Entry, shown: bool)
              | ExchangeOp(key: nat, value: Entry, shown: bool)
              | DelOp(key: nat)
              | GetOp(key: nat)

  /** One operation on the bounded map, and what it returns to the caller. */
  function MapStep(m: map<nat, Entry>, op: BoardOp): (map<nat, Entry>, Entry) {
    var found := if op.key in m then m[op.key] else NoEntry;
    match op
    case SetOp(k, v, _) => (BoundedSet(m, k, v), NoEntry)
    case ExchangeOp(k, v, _) => (BoundedSet(m, k, v), found)
    case DelOp(k) => (m - {k}, NoEntry)
    case GetOp(_) => (m, found)
  }

  /** A run on the bounded map: final map and the values returned, in order. */
  function MapRun(m: map<nat, Entry>, ops: seq<BoardOp>): (map<nat, Entry>, seq<Entry>) {
    if ops == [] then (m, [])
    else
      var before := MapRun(m, ops[..|ops| - 1]);
      var last := MapStep(before.0, ops[|ops| - 1]);
      (last.0, before.1 + [last.1])
  }

  lemma {:induction false} UntouchedStays(m: map<nat, Entry>, ops: seq<BoardOp>, after: seq<BoardOp>, k: nat)
    requires forall op | op in after :: op.GetOp? || op.key != k
    ensures var was, now := MapRun(m, ops), MapRun(m, ops + after);
            SameAt(was.0, now.0, k) && was.1 <= now.1
    decreases |after|
  {
    hide MapRun, MapStep;
    if after == [] {
      assert ops + after == ops;
    } else {
      var rest, last := after[..|after| - 1], after[|after| - 1];
      UntouchedStays(m, ops, rest, k);
      assert last in after;
      assert ops + after == ops + rest + [last];
      NextOp(m, ops + rest, last);
      OtherKey(MapRun(m, ops + rest).0, last, k);
    }
  }

  ghost predicate SameAt(was: map<nat, Entry>, now: map<nat, Entry>, k: nat) {
    (k in now <==> k in was) && (k in now ==> now[k] == was[k])
  }

  lemma OtherKey(m: map<nat, Entry>, op: BoardOp, k: nat)
    requires op.GetOp? || op.key != k
    ensures SameAt(m, MapStep(m, op).0, k)
  {
  }

  lemma NextOp(m: map<nat, Entry>, ops: seq<BoardOp>, op: BoardOp)
    ensures var was := MapRun(m, ops); var step := MapStep(was.0, op);
            MapRun(m, ops + [op]) == (step.0, was.1 + [step.1])
  {
    hide MapStep;
    assert (ops + [op])[..|ops|] == ops;
  }

  lemma {:induction false} AnswerCount(m: map<nat, Entry>, ops: seq<BoardOp>)
    ensures |MapRun(m, ops).1| == |ops|
  {
    hide MapStep;
    if ops != [] { AnswerCount(m, ops[..|ops| - 1]); }
  }

  /** A value set is what the key has until it is set or deleted again, unless 910 other keys were there; a
      deleted key has none; a get or exchange returns what the key had before it. */
  lemma LastWriteWins(m: map<nat, Entry>, before: seq<BoardOp>, op: BoardOp, after: seq<BoardOp>)
    requires forall o | o in after :: o.GetOp? || o.key != op.key
    ensures var was, now := MapRun(m, before).0, MapRun(m, before + [op] + after);
            && (op.SetOp? || op.ExchangeOp? ==>
                  if op.key in was || |was| < 910 then op.key in now.0 && now.0[op.key] == op.value else op.key !in now.0)
            && (op.DelOp? ==> op.key !in now.0)
            && |before| < |now.1|
            && now.1[|before|] == if (op.GetOp? || op.ExchangeOp?) && op.key in was then was[op.key] else NoEntry
  {
    hide MapRun;
    AnswerCount(m, before);
    NextOp(m, before, op);
    UntouchedStays(m, before + [op], after, op.key);
  }

  /** Every run of the table returns what the bounded map returns and ends in the same map. */
  method Run(bb: Blackboard, ops: seq<BoardOp>) returns (answers: seq<Entry>)
    requires bb.Valid() && forall op | op in ops :: op.key != INV_ID
    modifies bb, bb.hashtable, bb.toc
    ensures bb.Valid()
    ensures (bb.Map(), answers) == MapRun(old(bb.Map()), ops)
    ensures old(bb.allVisible) && (forall op | op in ops :: op.SetOp? || op.ExchangeOp? ==> op.shown) ==> bb.allVisible
  {
    hide Rep, Contents, BoundedSet, EndsRun, Holes, SameMarks, KeepsVisibility;
    answers := [];
    for i := 0 to |ops|
      invariant bb.Valid()
      invariant (bb.Map(), answers) == MapRun(old(bb.Map()), ops[..i])
      invariant old(bb.allVisible) && (forall op | op in ops :: op.SetOp? || op.ExchangeOp? ==> op.shown) ==> bb.allVisible
    {
      assert ops[..i + 1][..i] == ops[..i];
      var e := NoEntry;
      match ops[i] {
        case SetOp(k, v, shown) => bb.Set(k, v, shown);
        case ExchangeOp(k, v, shown) => e := bb.Exchange(k, v, shown);
        case DelOp(k) => var _ := bb.Del(k);
        case GetOp(k) => e := bb.Get(k);
      }
      answers := answers + [e];
    }
    assert ops[..|ops|] == ops;
  }

  // ----- A hidden entry in the way -----

  lemma FirstPlaced(t: seq<Cell>, toc: seq<Word>, toctoc: Word, t': seq<Cell>, at': map<nat, nat>, toc': seq<Word>, hidden: Entry)
    requires Rep(t, map[], toc, toctoc, true) && Placed(t, map[], toc, t', at', toc', 1, hidden, false)
    ensures at' == map[1 := 1] && forall i: nat | i < 1024 :: !Marked(toc', i)
  {
    assert !Used(t, 1);
    assert !(Dist(Home(1), 1) < Dist(Home(1), at'[1]));
  }

  lemma SecondPlaced(t: seq<Cell>, toc: seq<Word>, t': seq<Cell>, at': map<nat, nat>, toc': seq<Word>, shown: Entry)
    requires TableOk(t, map[1 := 1]) && Placed(t, map[1 := 1], toc, t', at', toc', 1022, shown, true)
    requires forall i: nat | i < 1024 :: !Marked(toc, i)
    ensures at' == map[1 := 1, 1022 := 2] && Marked(toc', 2) && !Marked(toc', 1)
  {
    var at := map[1 := 1];
    assert 1 in at && t[at[1]].key == 1;
    assert Used(t, 1) && !Used(t, 2) && !Marked(toc, 1);
    assert !(Dist(Home(1022), 2) < Dist(Home(1022), at'[1022]));
    assert at'[1022] == 2 && at' == at[1022 := 2];
  }

  lemma MarksDiffer(t: seq<Cell>, toc: seq<Word>, end: Slot)
    requires TableOk(t, map[1 := 1, 1022 := 2]) && |toc| == 32 && Marked(toc, 2) && !Marked(toc, 1) && EndsRun(t, 1, end)
    ensures !SameMarks(toc, Holes(t, 1, 1, end))
  {
    var at := map[1 := 1, 1022 := 2];
    assert 1 in at && 1022 in at && t[at[1]].key == 1 && t[at[1022]].key == 1022;
    assert Used(t, 1) && Used(t, 2) && !Used(t, 3);
    assert !(Dist(1, 3) < Dist(1, end));
    assert Next(1) == 2 && Next(2) == 3 && MustMove(Home(t[2].key), 1, 2);
    var l := Holes(t, 1, 1, 3);
    assert Holes(t, 2, 2, 3) == [2] && l[1] == 2 && l[0] == 1;
  }

  method TwoColliding(hidden: Entry, shown: Entry) returns (b: Blackboard)
    ensures fresh(b) && fresh(b.hashtable) && fresh(b.toc) && b.Valid() && b.Map() == map[1 := hidden, 1022 := shown]
    ensures b.at == map[1 := 1, 1022 := 2] && TableOk(b.hashtable[..], b.at) && Marked(b.toc[..], 2) && !Marked(b.toc[..], 1)
  {
    hide Rep, Contents, Placed, TableOk, Marked;
    b := new Blackboard();
    ghost var t, toc, toctoc := b.hashtable[..], b.toc[..], b.toctoc;
    b.Set(1, hidden, false);
    FirstPlaced(t, toc, toctoc, b.hashtable[..], b.at, b.toc[..], hidden);
    t, toc := b.hashtable[..], b.toc[..];
    RepParts(t, b.at, toc, b.toctoc, b.allVisible);
    b.Set(1022, shown, true);
    SecondPlaced(t, toc, b.hashtable[..], b.at, b.toc[..], shown);
    RepParts(b.hashtable[..], b.at, b.toc[..], b.toctoc, b.allVisible);
  }

  /** Key 1022 has the home slot of key 1. With key 1 hidden, deleting it moves the visible entry into an
      unlisted slot: it is still stored, but no snapshot lists it. */
  method HiddenDeletionExample(hidden: Entry, shown: Entry) returns (b: Blackboard)
    ensures b.Valid() && b.Map() == map[1022 := shown] && b.Snapshot() == []
  {
    hide Rep, Contents, Listed, SameMarks, Holes, EndsRun, KeepsVisibility, TableOk, Marked;
    b := TwoColliding(hidden, shown);
    ghost var t, toc, at := b.hashtable[..], b.toc[..], b.at;
    ghost var end := b.Del(1);
    MarksDiffer(t, toc, end);
    NoLongerListed(b.hashtable[..], at, toc, b.at, b.toc[..], b.toctoc, b.allVisible);
  }

  lemma RepParts(t: seq<Cell>, at: map<nat, nat>, toc: seq<Word>, toctoc: Word, allVisible: bool)
    requires Rep(t, at, toc, toctoc, allVisible)
    ensures TableOk(t, at) && TocOk(t, toc, toctoc)
  {
  }

  lemma OnlyMarked(t: seq<Cell>, at: map<nat, nat>, toc: seq<Word>, toctoc: Word, allVisible: bool)
    requires Rep(t, at, toc, toctoc, allVisible) && at.Keys == {1022}
    ensures at[1022] < NMAX && |t| == NMAX && |toc| == 32 && forall i: nat | i < 1024 && Marked(toc, i) :: i == at[1022]
  {
    assert 1022 in at;
    forall i: nat | i < 1024 && Marked(toc, i) ensures i == at[1022] {
      assert Used(t, i) && t[i].key in at;
    }
  }

  lemma NoLongerListed(t: seq<Cell>, at0: map<nat, nat>, toc0: seq<Word>, at: map<nat, nat>, toc: seq<Word>, toctoc: Word,
                       allVisible: bool)
    requires Rep(t, at, toc, toctoc, allVisible) && |toc0| == 32 && at0 == map[1 := 1, 1022 := 2] && at.Keys == {1022}
    requires Marked(toc0, 2) && !KeepsVisibility(toc0, at0, toc, at)
    ensures Listed(t, toc, 1024) == []
  {
    hide Rep;
    OnlyMarked(t, at, toc, toctoc, allVisible);
    assert !Marked(toc, at[1022]);
    ListedSkip(t, toc, 0, 1024);
  }
}
