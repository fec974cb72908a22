/** The private allocator: blocks with a one-word header in mapped areas, and a free list linked
    through the blocks. Memory is a map from word addresses to words of 8 bytes. */
module BlockAllocators {
  import opened Common

  type Memory = map<nat, nat>

  // Header and smallest payload are one word, a block with its free-list link is two.
  const LINK_WORDS: nat := 2
  const MIN_AREA: nat := 4096

  // ----- Blocks -----

  /** Word w belongs to the block with header a and payload size. */
  predicate Covers(a: nat, size: nat, w: nat) {
    a <= w < a + 1 + size
  }

  /** The blocks lie in the memory without overlap and leave no word out: every word belongs to exactly
      one block. */
  ghost predicate Partition(words: set<nat>, blocks: map<nat, nat>, owner: map<nat, nat>) {
    && owner.Keys == words
    && (forall a {:trigger blocks[a]} | a in blocks :: a > 0 && blocks[a] > 0)
    && (forall w: nat {:trigger owner[w]} | w in owner :: owner[w] in blocks && Covers(owner[w], blocks[owner[w]], w))
    && (forall a, w: nat {:trigger Covers(a, blocks[a], w)} | a in blocks && Covers(a, blocks[a], w) :: w in owner && owner[w] == a)
  }

  ghost predicate HeadersOk(mem: Memory, blocks: map<nat, nat>) {
    forall a {:trigger blocks[a]} | a in blocks :: a in mem && mem[a] == blocks[a]
  }

  // ----- The free list -----

  function Link(free: seq<nat>, k: nat): nat {
    if k < |free| then free[k] else 0
  }

  ghost predicate Linked(mem: Memory, free: seq<nat>, k: nat)
    requires k < |free|
  {
    free[k] + 1 in mem && mem[free[k] + 1] == Link(free, k + 1)
  }

  ghost predicate ListOk(mem: Memory, first: nat, free: seq<nat>) {
    first == Link(free, 0) && forall k: nat | k < |free| :: Linked(mem, free, k)
  }

  /** Every block is live or on the free list, and never both or twice. */
  ghost predicate Split(blocks: map<nat, nat>, free: seq<nat>, live: set<nat>) {
    && Distinct(free) && (forall k: nat | k < |free| :: free[k] in blocks && free[k] !in live)
    && (forall a | a in blocks :: a in live || a in free) && live <= blocks.Keys
  }

  ghost predicate Rep(mem: Memory, first: nat, blocks: map<nat, nat>, owner: map<nat, nat>, free: seq<nat>, live: set<nat>) {
    && Partition(mem.Keys, blocks, owner) && HeadersOk(mem, blocks) && Split(blocks, free, live)
    && ListOk(mem, first, free)
  }

  /** The words of these blocks are as they were. */
  ghost predicate Untouched(mem: Memory, mem': Memory, owner: map<nat, nat>, kept: set<nat>) {
    forall w: nat | w in mem && w in owner && owner[w] in kept :: w in mem' && mem'[w] == mem[w]
  }

  lemma BlockFacts(words: set<nat>, blocks: map<nat, nat>, owner: map<nat, nat>, a: nat)
    requires Partition(words, blocks, owner) && a in blocks
    ensures a > 0 && blocks[a] > 0
    ensures forall w: nat | a <= w <= a + blocks[a] :: w in words && w in owner && owner[w] == a
  {
    forall w: nat | a <= w <= a + blocks[a] ensures w in words && w in owner && owner[w] == a {
      assert Covers(a, blocks[a], w);
    }
  }

  lemma OwnHeader(words: set<nat>, blocks: map<nat, nat>, owner: map<nat, nat>, a: nat)
    requires Partition(words, blocks, owner)
    ensures a in blocks ==> a in words && a in owner && owner[a] == a
  {
    if a in blocks { BlockFacts(words, blocks, owner, a); }
  }

  /** Different blocks do not overlap. */
  lemma BlocksDisjoint(words: set<nat>, blocks: map<nat, nat>, owner: map<nat, nat>, a: nat, b: nat)
    requires Partition(words, blocks, owner) && a in blocks && b in blocks && a != b
    ensures a + blocks[a] < b || b + blocks[b] < a
  {
    OwnHeader(words, blocks, owner, a);
    OwnHeader(words, blocks, owner, b);
    BlockFacts(words, blocks, owner, a);
    BlockFacts(words, blocks, owner, b);
  }

  // ----- Taking a block off the free list -----

  function Taken(mem: Memory, free: seq<nat>, k: nat): Memory
    requires k < |free|
  {
    if k == 0 then mem else mem[free[k - 1] + 1 := Link(free, k + 1)]
  }

  lemma TakeSplit(blocks: map<nat, nat>, free: seq<nat>, live: set<nat>, k: nat)
    requires Split(blocks, free, live) && k < |free|
    ensures Split(blocks, Without(free, k), live + {free[k]})
  {
    var r := Without(free, k);
    forall a | a in blocks ensures a in live + {free[k]} || a in r {
      if a !in live && a != free[k] {
        var j: nat :| j < |free| && free[j] == a;
        assert a == if j < k then r[j] else r[j - 1];
      }
    }
  }

  lemma TakeLinked(mem: Memory, first: nat, free: seq<nat>, k: nat)
    requires Distinct(free) && k < |free| && ListOk(mem, first, free)
    ensures ListOk(Taken(mem, free, k), if k == 0 then Link(free, 1) else first, Without(free, k))
  {
    var mem', r := Taken(mem, free, k), Without(free, k);
    forall j: nat | j < |r| ensures Linked(mem', r, j) {
      var j' := if j < k then j else j + 1;
      assert r[j] == free[j'] && Linked(mem, free, j');
      assert k > 0 && j' != k - 1 ==> free[j'] != free[k - 1];
    }
  }

  lemma TakeHeaders(mem: Memory, blocks: map<nat, nat>, owner: map<nat, nat>, p: nat, v: nat)
    requires Partition(mem.Keys, blocks, owner) && HeadersOk(mem, blocks) && p in blocks
    ensures mem[p + 1 := v].Keys == mem.Keys && HeadersOk(mem[p + 1 := v], blocks)
    ensures p + 1 in owner && owner[p + 1] == p
  {
    hide Partition;
    BlockFacts(mem.Keys, blocks, owner, p);
    forall a | a in blocks ensures a != p + 1 {
      BlockFacts(mem.Keys, blocks, owner, a);
    }
  }

  /** Taking entry k out of the list makes its block live and touches no live block. */
  lemma Take(mem: Memory, first: nat, blocks: map<nat, nat>, owner: map<nat, nat>, free: seq<nat>, live: set<nat>, k: nat)
    requires Rep(mem, first, blocks, owner, free, live) && k < |free|
    ensures var first' := if k == 0 then Link(free, 1) else first;
            Rep(Taken(mem, free, k), first', blocks, owner, Without(free, k), live + {free[k]})
    ensures Untouched(mem, Taken(mem, free, k), owner, live)
  {
    hide ListOk, Partition, HeadersOk;
    TakeSplit(blocks, free, live, k);
    TakeLinked(mem, first, free, k);
    if k > 0 { TakeHeaders(mem, blocks, owner, free[k - 1], Link(free, k + 1)); }
  }

  // ----- Putting a block on the free list -----

  lemma PushSplit(blocks: map<nat, nat>, free: seq<nat>, live: set<nat>, a: nat)
    requires Split(blocks, free, live) && a in live
    ensures Split(blocks, [a] + free, live - {a})
  {
    var r := [a] + free;
    forall x | x in blocks ensures x in live - {a} || x in r {}
    forall k: nat | k < |r| ensures r[k] in blocks && r[k] !in live - {a} {
      assert k > 0 ==> r[k] == free[k - 1];
    }
  }

  function Pushed(mem: Memory, first: nat, a: nat): Memory {
    mem[a + 1 := first]
  }

  lemma PushLinked(mem: Memory, first: nat, free: seq<nat>, a: nat)
    requires a !in free && ListOk(mem, first, free)
    ensures ListOk(Pushed(mem, first, a), a, [a] + free)
  {
    var mem', r := Pushed(mem, first, a), [a] + free;
    forall k: nat | k < |r| ensures Linked(mem', r, k) {
      if k > 0 { assert r[k] == free[k - 1] && free[k - 1] in free && Linked(mem, free, k - 1); }
    }
  }

  /** Freeing a live block puts it in front of the list and touches no other live block. */
  lemma Push(mem: Memory, first: nat, blocks: map<nat, nat>, owner: map<nat, nat>, free: seq<nat>, live: set<nat>, a: nat)
    requires Rep(mem, first, blocks, owner, free, live) && a in live
    ensures Rep(Pushed(mem, first, a), a, blocks, owner, [a] + free, live - {a})
    ensures Untouched(mem, Pushed(mem, first, a), owner, live - {a})
  {
    hide ListOk, Partition, HeadersOk;
    assert a in blocks && a !in free;
    PushSplit(blocks, free, live, a);
    PushLinked(mem, first, free, a);
    TakeHeaders(mem, blocks, owner, a, first);
  }

  // ----- Splitting a block -----

  // The header of the part behind the first n words.
  function Rear(a: nat, n: nat): nat { a + 1 + n }

  // Block a of the given size becomes a block of size n and one for the rest behind it.
  function Cut(blocks: map<nat, nat>, a: nat, n: nat, size: nat): map<nat, nat> {
    blocks[a := n][a + 1 + n := if size > n then size - n - 1 else 0]
  }

  function CutOwner(owner: map<nat, nat>, a: nat, n: nat, size: nat): map<nat, nat> {
    map w | w in owner :: if a + 1 + n <= w <= a + size then a + 1 + n else owner[w]
  }

  ghost predicate Cuttable(blocks: map<nat, nat>, a: nat, n: nat, size: nat) {
    a in blocks && blocks[a] == size && 0 < n && n + 1 < size
  }

  lemma CutOwned(words: set<nat>, blocks: map<nat, nat>, owner: map<nat, nat>, a: nat, n: nat, size: nat, w: nat)
    requires Partition(words, blocks, owner) && Cuttable(blocks, a, n, size) && a + 1 + n !in blocks && w in owner
    ensures var blocks', x := Cut(blocks, a, n, size), CutOwner(owner, a, n, size)[w]; x in blocks' && Covers(x, blocks'[x], w)
  {
    assert owner[w] in blocks && Covers(owner[w], blocks[owner[w]], w);
  }

  lemma CutCovers(words: set<nat>, blocks: map<nat, nat>, owner: map<nat, nat>, a: nat, n: nat, size: nat, x: nat, w: nat)
    requires Partition(words, blocks, owner) && Cuttable(blocks, a, n, size) && a + 1 + n !in blocks
    requires var blocks' := Cut(blocks, a, n, size); x in blocks' && Covers(x, blocks'[x], w)
    ensures w in owner && CutOwner(owner, a, n, size)[w] == x
  {
    var y := if x == a + 1 + n then a else x;
    assert y in blocks && Covers(y, blocks[y], w);
    assert owner[w] == y;
    if y != a && a <= w <= a + size { assert Covers(a, blocks[a], w); }
  }

  lemma CutPartition(words: set<nat>, blocks: map<nat, nat>, owner: map<nat, nat>, a: nat, n: nat, size: nat)
    requires Partition(words, blocks, owner) && Cuttable(blocks, a, n, size)
    ensures a + 1 + n !in blocks && a in words && a + 1 + n in words
    ensures Partition(words, Cut(blocks, a, n, size), CutOwner(owner, a, n, size))
  {
    var b := a + 1 + n;
    var blocks', owner' := Cut(blocks, a, n, size), CutOwner(owner, a, n, size);
    BlockFacts(words, blocks, owner, a);
    OwnHeader(words, blocks, owner, b);
    assert owner[b] == a;
    forall w: nat | w in owner' ensures owner'[w] in blocks' && Covers(owner'[w], blocks'[owner'[w]], w) {
      CutOwned(words, blocks, owner, a, n, size, w);
    }
    forall x, w: nat | x in blocks' && Covers(x, blocks'[x], w) ensures w in owner' && owner'[w] == x {
      CutCovers(words, blocks, owner, a, n, size, x, w);
    }
    forall x | x in blocks' ensures x > 0 && blocks'[x] > 0 {
      if x != a && x != b { assert x in blocks && blocks[x] == blocks'[x]; }
    }
  }

  lemma CutSplit(blocks: map<nat, nat>, free: seq<nat>, live: set<nat>, a: nat, n: nat, size: nat)
    requires Split(blocks, free, live) && a in live && Rear(a, n) !in blocks
    ensures Split(Cut(blocks, a, n, size), free, live + {Rear(a, n)})
  {
  }

  lemma CutHeaders(mem: Memory, blocks: map<nat, nat>, a: nat, n: nat, size: nat)
    requires HeadersOk(mem, blocks) && a + 1 + n !in blocks && a in mem && a + 1 + n in mem
    ensures Cut(mem, a, n, size).Keys == mem.Keys && HeadersOk(Cut(mem, a, n, size), Cut(blocks, a, n, size))
  {
    var mem', blocks' := Cut(mem, a, n, size), Cut(blocks, a, n, size);
    forall x | x in blocks' ensures x in mem' && mem'[x] == blocks'[x] {
      if x != a && x != a + 1 + n { assert x in blocks && blocks[x] == blocks'[x]; }
    }
  }

  lemma CutLinked(mem: Memory, first: nat, blocks: map<nat, nat>, owner: map<nat, nat>, free: seq<nat>, live: set<nat>,
                  a: nat, n: nat, size: nat)
    requires Partition(mem.Keys, blocks, owner) && Split(blocks, free, live) && ListOk(mem, first, free)
    requires a in live && Cuttable(blocks, a, n, size)
    ensures ListOk(Cut(mem, a, n, size), first, free)
  {
    var mem' := Cut(mem, a, n, size);
    forall k: nat | k < |free| ensures Linked(mem', free, k) {
      assert Linked(mem, free, k);
      LinkElsewhere(mem.Keys, blocks, owner, a, free[k]);
    }
  }

  /** The link of another block is no word of this one. */
  lemma LinkElsewhere(words: set<nat>, blocks: map<nat, nat>, owner: map<nat, nat>, a: nat, p: nat)
    requires Partition(words, blocks, owner) && a in blocks && p in blocks && p != a
    ensures !(a <= p + 1 <= a + blocks[a])
  {
    BlockFacts(words, blocks, owner, a);
    BlockFacts(words, blocks, owner, p);
    assert owner[p + 1] == p;
  }

  lemma CutUntouched(mem: Memory, blocks: map<nat, nat>, owner: map<nat, nat>, live: set<nat>, a: nat, n: nat, size: nat)
    requires Partition(mem.Keys, blocks, owner) && Cuttable(blocks, a, n, size)
    ensures Untouched(mem, Cut(mem, a, n, size), owner, live - {a})
  {
    BlockFacts(mem.Keys, blocks, owner, a);
    assert owner[a] == a && owner[a + 1 + n] == a;
  }

  /** Splitting a live block in two makes the rear part a live block of its own. */
  lemma CutBlock(mem: Memory, first: nat, blocks: map<nat, nat>, owner: map<nat, nat>, free: seq<nat>, live: set<nat>,
                 a: nat, n: nat, size: nat)
    requires Rep(mem, first, blocks, owner, free, live) && a in live && Cuttable(blocks, a, n, size)
    ensures Rep(Cut(mem, a, n, size), first, Cut(blocks, a, n, size), CutOwner(owner, a, n, size), free, live + {Rear(a, n)})
    ensures Untouched(mem, Cut(mem, a, n, size), owner, live - {a}) && Rear(a, n) !in blocks
  {
    hide ListOk, Partition, HeadersOk, Split, Cut, CutOwner, Untouched;
    CutPartition(mem.Keys, blocks, owner, a, n, size);
    CutSplit(blocks, free, live, a, n, size);
    CutHeaders(mem, blocks, a, n, size);
    CutLinked(mem, first, blocks, owner, free, live, a, n, size);
    CutUntouched(mem, blocks, owner, live, a, n, size);
  }

  // ----- New areas -----

  function Area(base: nat, len: nat, v: nat): (r: Memory)
    ensures forall w: nat :: w in r <==> base <= w < base + len
    ensures forall w: nat | w in r :: r[w] == v
  {
    if len == 0 then map[] else Area(base, len - 1, v)[base + len - 1 := v]
  }

  // The area's first word is the header of one block.
  function Mapped(mem: Memory, base: nat, len: nat): Memory {
    (mem + Area(base, len, 0))[base := if len > 0 then len - 1 else 0]
  }

  function OneBlock(blocks: map<nat, nat>, base: nat, len: nat): map<nat, nat> {
    blocks[base := if len > 0 then len - 1 else 0]
  }

  ghost predicate Unmapped(words: set<nat>, base: nat, len: nat) {
    forall w: nat {:trigger w in words} | base <= w < base + len :: w !in words
  }

  /** A newly mapped area becomes one live block. */
  lemma MapArea(mem: Memory, first: nat, blocks: map<nat, nat>, owner: map<nat, nat>, free: seq<nat>, live: set<nat>, base: nat, len: nat)
    requires Rep(mem, first, blocks, owner, free, live) && base > 0 && len >= 2 && Unmapped(mem.Keys, base, len)
    ensures Rep(Mapped(mem, base, len), first, OneBlock(blocks, base, len), owner + Area(base, len, base), free, live + {base})
    ensures Untouched(mem, Mapped(mem, base, len), owner, live) && base !in blocks
  {
    hide ListOk, Partition, HeadersOk, Split;
    AreaPartition(mem.Keys, blocks, owner, base, len);
    assert Mapped(mem, base, len).Keys == mem.Keys + Area(base, len, base).Keys;
    AreaHeaders(mem, blocks, base, len);
    AreaSplit(blocks, free, live, base, len);
    AreaLinked(mem, first, free, base, len);
  }

  lemma AreaPartition(words: set<nat>, blocks: map<nat, nat>, owner: map<nat, nat>, base: nat, len: nat)
    requires Partition(words, blocks, owner) && base > 0 && len >= 2 && Unmapped(words, base, len)
    ensures base !in blocks
    ensures Partition(words + Area(base, len, base).Keys, OneBlock(blocks, base, len), owner + Area(base, len, base))
  {
    var blocks', owner' := OneBlock(blocks, base, len), owner + Area(base, len, base);
    OwnHeader(words, blocks, owner, base);
    assert base !in words;
    forall w: nat | w in owner' ensures owner'[w] in blocks' && Covers(owner'[w], blocks'[owner'[w]], w) {
      if w in owner { assert owner'[w] == owner[w] && owner[w] in blocks && Covers(owner[w], blocks[owner[w]], w); }
    }
    forall a, w: nat | a in blocks' && Covers(a, blocks'[a], w) ensures w in owner' && owner'[w] == a {
      if a != base { assert Covers(a, blocks[a], w) && w in owner; }
    }
  }

  lemma AreaHeaders(mem: Memory, blocks: map<nat, nat>, base: nat, len: nat)
    requires HeadersOk(mem, blocks) && base !in blocks && Unmapped(mem.Keys, base, len)
    ensures HeadersOk(Mapped(mem, base, len), OneBlock(blocks, base, len))
  {
    var mem', blocks' := Mapped(mem, base, len), OneBlock(blocks, base, len);
    forall x | x in blocks' ensures x in mem' && mem'[x] == blocks'[x] {
      if x != base { assert x in blocks && blocks[x] == blocks'[x] && x in mem; }
    }
  }

  lemma AreaSplit(blocks: map<nat, nat>, free: seq<nat>, live: set<nat>, base: nat, len: nat)
    requires Split(blocks, free, live) && base !in blocks
    ensures Split(OneBlock(blocks, base, len), free, live + {base})
  {
  }

  lemma AreaLinked(mem: Memory, first: nat, free: seq<nat>, base: nat, len: nat)
    requires ListOk(mem, first, free) && Unmapped(mem.Keys, base, len) && len >= 2
    ensures ListOk(Mapped(mem, base, len), first, free)
  {
    var mem' := Mapped(mem, base, len);
    forall k: nat | k < |free| ensures Linked(mem', free, k) { assert Linked(mem, free, k); }
  }

  // ----- What allocation leaves alone -----

  ghost predicate BlockKept(mem: Memory, blocks: map<nat, nat>, mem': Memory, blocks': map<nat, nat>, b: nat) {
    && b in blocks && b in blocks' && blocks'[b] == blocks[b]
    && forall w: nat | b <= w <= b + blocks[b] :: w in mem && w in mem' && mem'[w] == mem[w]
  }

  /** These blocks keep their size and all their words. */
  ghost predicate Kept(mem: Memory, blocks: map<nat, nat>, mem': Memory, blocks': map<nat, nat>, kept: set<nat>) {
    forall b | b in kept :: BlockKept(mem, blocks, mem', blocks', b)
  }

  lemma KeptFrom(mem: Memory, blocks: map<nat, nat>, owner: map<nat, nat>, mem': Memory, blocks': map<nat, nat>, kept: set<nat>)
    requires Partition(mem.Keys, blocks, owner) && Untouched(mem, mem', owner, kept) && kept <= blocks.Keys
    requires forall b | b in kept :: b in blocks' && blocks'[b] == blocks[b]
    ensures Kept(mem, blocks, mem', blocks', kept)
  {
    forall b | b in kept ensures BlockKept(mem, blocks, mem', blocks', b) {
      BlockFacts(mem.Keys, blocks, owner, b);
    }
  }

  lemma KeptTransitive(mem: Memory, blocks: map<nat, nat>, mem': Memory, blocks': map<nat, nat>, mem'': Memory, blocks'': map<nat, nat>,
                       kept: set<nat>, kept': set<nat>)
    requires Kept(mem, blocks, mem', blocks', kept) && Kept(mem', blocks', mem'', blocks'', kept') && kept <= kept'
    ensures Kept(mem, blocks, mem'', blocks'', kept)
  {
    forall b | b in kept ensures BlockKept(mem, blocks, mem'', blocks'', b) {
      assert BlockKept(mem, blocks, mem', blocks', b) && BlockKept(mem', blocks', mem'', blocks'', b);
    }
  }

  lemma KeptSome(mem: Memory, blocks: map<nat, nat>, mem': Memory, blocks': map<nat, nat>, kept: set<nat>, some: set<nat>)
    requires Kept(mem, blocks, mem', blocks', kept) && some <= kept
    ensures Kept(mem, blocks, mem', blocks', some)
  {
    hide BlockKept;
  }

  lemma KeptAll(mem: Memory, blocks: map<nat, nat>, owner: map<nat, nat>, kept: set<nat>)
    requires Partition(mem.Keys, blocks, owner) && kept <= blocks.Keys
    ensures Kept(mem, blocks, mem, blocks, kept)
  {
    KeptFrom(mem, blocks, owner, mem, blocks, kept);
  }

  lemma RepFacts(mem: Memory, first: nat, blocks: map<nat, nat>, owner: map<nat, nat>, free: seq<nat>, live: set<nat>)
    requires Rep(mem, first, blocks, owner, free, live)
    ensures Partition(mem.Keys, blocks, owner) && live <= blocks.Keys
  {
  }

  lemma CutOthers(blocks: map<nat, nat>, a: nat, n: nat, size: nat, b: nat)
    requires b in blocks && b != a && b != a + 1 + n
    ensures b in Cut(blocks, a, n, size) && Cut(blocks, a, n, size)[b] == blocks[b]
  {
  }

  /** Cutting a live block and freeing the rear part. */
  lemma SplitOff(mem: Memory, first: nat, blocks: map<nat, nat>, owner: map<nat, nat>, free: seq<nat>, live: set<nat>,
                 a: nat, n: nat, size: nat)
    requires Rep(mem, first, blocks, owner, free, live) && a in live && Cuttable(blocks, a, n, size)
    ensures var mem' := Pushed(Cut(mem, a, n, size), first, Rear(a, n));
            && Rep(mem', Rear(a, n), Cut(blocks, a, n, size), CutOwner(owner, a, n, size), [Rear(a, n)] + free, live)
            && mem'.Keys == mem.Keys && Kept(mem, blocks, mem', Cut(blocks, a, n, size), live - {a})
  {
    hide Rep, Cut, CutOwner, Partition, Kept, Untouched;
    var b := Rear(a, n);
    var mem1, blocks1, owner1 := Cut(mem, a, n, size), Cut(blocks, a, n, size), CutOwner(owner, a, n, size);
    RepFacts(mem, first, blocks, owner, free, live);
    CutBlock(mem, first, blocks, owner, free, live, a, n, size);
    RepFacts(mem1, first, blocks1, owner1, free, live + {b});
    Push(mem1, first, blocks1, owner1, free, live + {b}, b);
    assert live + {b} - {b} == live;
    forall x | x in live - {a} ensures x in blocks1 && blocks1[x] == blocks[x] { CutOthers(blocks, a, n, size, x); }
    KeptFrom(mem, blocks, owner, mem1, blocks1, live - {a});
    KeptFrom(mem1, blocks1, owner1, Pushed(mem1, first, b), blocks1, live);
    KeptTransitive(mem, blocks, mem1, blocks1, Pushed(mem1, first, b), blocks1, live - {a}, live);
    CutKeys(mem, blocks, owner, a, n, size);
    LinkMapped(mem1, blocks1, owner1, b);
  }

  lemma CutKeys(mem: Memory, blocks: map<nat, nat>, owner: map<nat, nat>, a: nat, n: nat, size: nat)
    requires Partition(mem.Keys, blocks, owner) && Cuttable(blocks, a, n, size)
    ensures Cut(mem, a, n, size).Keys == mem.Keys && a + 1 + n in Cut(blocks, a, n, size)
  {
    BlockFacts(mem.Keys, blocks, owner, a);
  }

  lemma LinkMapped(mem: Memory, blocks: map<nat, nat>, owner: map<nat, nat>, p: nat)
    requires Partition(mem.Keys, blocks, owner) && p in blocks
    ensures p + 1 in mem
  {
    BlockFacts(mem.Keys, blocks, owner, p);
  }

  // ----- Sizes -----

  /** The words for a number of bytes: at least one, rounded up to whole words. */
  function WordsFor(bytes: nat): (n: nat)
    ensures n > 0 && 8 * n >= bytes && (n > 1 ==> 8 * (n - 1) < bytes)
  {
    if bytes < 8 then 1 else if bytes % 8 == 0 then bytes / 8 else bytes / 8 + 1
  }

  /** The length of a new area for a payload of n words: one header more, in whole pages beyond the
      usual area. */
  function AreaFor(n: nat, page: nat): (len: nat)
    requires n > 0 && page > 0
    ensures len > n && (n + 1 <= MIN_AREA ==> len == MIN_AREA) && (n + 1 > MIN_AREA ==> len % page == 0 && len < n + 1 + page)
  {
    if n + 1 > MIN_AREA then RoundUp(n + 1, page) else MIN_AREA
  }

  // The words of an area mapped for so many bytes, if any is mapped.
  function AreaWords(area: nat, bytes: nat, page: nat): set<nat>
    requires page > 0
  {
    if area == 0 then {} else Area(area, AreaFor(WordsFor(bytes), page), 0).Keys
  }

  /** Writing into the payload of a live block keeps everything else. */
  lemma WriteWord(mem: Memory, first: nat, blocks: map<nat, nat>, owner: map<nat, nat>, free: seq<nat>, live: set<nat>,
                  a: nat, w: nat, v: nat)
    requires Rep(mem, first, blocks, owner, free, live) && a in live && a in blocks && a < w <= a + blocks[a]
    ensures Rep(mem[w := v], first, blocks, owner, free, live) && mem[w := v].Keys == mem.Keys
    ensures Kept(mem, blocks, mem[w := v], blocks, live - {a})
  {
    hide Linked, Split;
    BlockFacts(mem.Keys, blocks, owner, a);
    assert owner[w] == a;
    WriteHeaders(mem, blocks, owner, a, w, v);
    WriteLinks(mem, first, blocks, owner, free, live, a, w, v);
    RepFacts(mem, first, blocks, owner, free, live);
    KeptFrom(mem, blocks, owner, mem[w := v], blocks, live - {a});
  }

  lemma WriteHeaders(mem: Memory, blocks: map<nat, nat>, owner: map<nat, nat>, a: nat, w: nat, v: nat)
    requires Partition(mem.Keys, blocks, owner) && HeadersOk(mem, blocks) && a in blocks && w in owner && owner[w] == a != w
    ensures HeadersOk(mem[w := v], blocks)
  {
    OwnHeader(mem.Keys, blocks, owner, w);
  }

  lemma WriteLinks(mem: Memory, first: nat, blocks: map<nat, nat>, owner: map<nat, nat>, free: seq<nat>, live: set<nat>,
                   a: nat, w: nat, v: nat)
    requires Partition(mem.Keys, blocks, owner) && Split(blocks, free, live) && ListOk(mem, first, free)
    requires a in live && w in owner && owner[w] == a
    ensures ListOk(mem[w := v], first, free)
  {
    var mem' := mem[w := v];
    forall k: nat | k < |free| ensures Linked(mem', free, k) {
      assert Linked(mem, free, k);
      BlockFacts(mem.Keys, blocks, owner, free[k]);
      assert owner[free[k] + 1] == free[k];
    }
  }

  /** No free block is large enough. */
  ghost predicate NoFit(free: seq<nat>, blocks: map<nat, nat>, n: nat) {
    forall k: nat | k < |free| :: free[k] in blocks && blocks[free[k]] < n
  }

  /** Block a is a free block that is large enough, and no smaller one is. */
  ghost predicate Tightest(free: seq<nat>, blocks: map<nat, nat>, n: nat, a: nat) {
    && a in free && a in blocks && blocks[a] >= n
    && forall f | f in free && f in blocks && blocks[f] >= n :: blocks[a] <= blocks[f]
  }

  /** What is left of a block of some size behind its first n words has come to the front of the free list,
      if it is of use. */
  ghost predicate RearFree(free: seq<nat>, blocks: map<nat, nat>, a: nat, n: nat, size: nat, before: seq<nat>) {
    if size - n <= LINK_WORDS then free == before
    else free == [a + 1 + n] + before && a + 1 + n in blocks && blocks[a + 1 + n] == size - n - 1
  }

  predicate CopiedWord(mem': Memory, q: nat, mem: Memory, p: nat, i: nat) {
    q + i in mem' && p + i in mem && mem'[q + i] == mem[p + i]
  }

  /** The n words at q are the n words that were at p. */
  ghost predicate Copied(mem': Memory, q: nat, mem: Memory, p: nat, n: nat) {
    forall i: nat | i < n :: CopiedWord(mem', q, mem, p, i)
  }

  lemma WordKept(mem: Memory, blocks: map<nat, nat>, mem': Memory, blocks': map<nat, nat>, kept: set<nat>, b: nat, w: nat)
    requires Kept(mem, blocks, mem', blocks', kept) && b in kept && b in blocks && b <= w <= b + blocks[b]
    ensures w in mem && w in mem' && mem'[w] == mem[w]
  {
    assert BlockKept(mem, blocks, mem', blocks', b);
  }

  lemma SizeKept(mem: Memory, blocks: map<nat, nat>, mem': Memory, blocks': map<nat, nat>, kept: set<nat>, b: nat)
    requires Kept(mem, blocks, mem', blocks', kept) && b in kept
    ensures b in blocks && b in blocks' && blocks'[b] == blocks[b]
  {
    assert BlockKept(mem, blocks, mem', blocks', b);
  }

  /** A copy of words that were kept before, in a block that is kept afterwards, stays a copy. */
  lemma CopyThrough(mem0: Memory, blocks0: map<nat, nat>, mem1: Memory, blocks1: map<nat, nat>, mem2: Memory, mem3: Memory,
                    blocks3: map<nat, nat>, p: nat, q: nat, n: nat, kept: set<nat>, kept': set<nat>)
    requires p > 0 && q > 0 && Copied(mem2, q, mem1, p, n)
    requires Kept(mem0, blocks0, mem1, blocks1, kept) && p - 1 in kept && p - 1 in blocks0 && n <= blocks0[p - 1]
    requires Kept(mem2, blocks1, mem3, blocks3, kept') && q - 1 in kept' && q - 1 in blocks1 && n <= blocks1[q - 1]
    ensures Copied(mem3, q, mem0, p, n)
  {
    forall i: nat | i < n ensures CopiedWord(mem3, q, mem0, p, i) {
      assert CopiedWord(mem2, q, mem1, p, i);
      WordKept(mem0, blocks0, mem1, blocks1, kept, p - 1, p + i);
      WordKept(mem2, blocks1, mem3, blocks3, kept', q - 1, q + i);
    }
  }

  class Heap {
    const page: nat
    var mem: Memory
    var first: nat

    ghost var blocks: map<nat, nat>
    ghost var owner: map<nat, nat>
    ghost var free: seq<nat>
    ghost var live: set<nat>

    ghost predicate Valid()
      reads this
    {
      page > 0 && Rep(mem, first, blocks, owner, free, live)
    }

    constructor (page: nat)
      requires page > 0
      ensures Valid() && mem == map[] && live == {} && this.page == page
    {
      this.page := page;
      mem, first := map[], 0;
      blocks, owner, free, live := map[], map[], [], {};
    }

    lemma FreeAt(k: nat)
      requires Valid() && k < |free|
      ensures free[k] in blocks && free[k] > 0 && free[k] in mem && mem[free[k]] == blocks[free[k]]
      ensures free[k] + 1 in mem && mem[free[k] + 1] == Link(free, k + 1)
    {
      hide Distinct;
      assert Linked(mem, free, k);
      BlockFacts(mem.Keys, blocks, owner, free[k]);
    }

    lemma LiveAt(a: nat)
      requires Valid() && a in live
      ensures a in blocks && a > 0 && a in mem && mem[a] == blocks[a] > 0
      ensures forall w: nat | a <= w <= a + blocks[a] :: w in mem
    {
      hide ListOk;
      BlockFacts(mem.Keys, blocks, owner, a);
    }

    lemma FirstLink()
      requires Valid()
      ensures first == Link(free, 0) && forall j: nat | j < |free| :: free[j] in blocks && free[j] > 0
    {
      forall j: nat | j < |free| ensures free[j] in blocks && free[j] > 0 { FreeAt(j); }
    }

    /** The best fit so far among the first i blocks of the free list. */
    ghost predicate BestOf(size: nat, best: nat, prev: nat, k: nat, i: nat)
      reads this
    {
      && i <= |free| && (forall j: nat | j < i :: free[j] in blocks)
      && (best == 0 ==> forall j: nat | j < i :: blocks[free[j]] < size)
      && (best != 0 ==>
            && k < i && best == free[k] && prev == (if k == 0 then 0 else free[k - 1]) && blocks[best] >= size
            && forall j: nat | j < i && blocks[free[j]] >= size :: blocks[best] <= blocks[free[j]])
    }

    /** Walks the free list for the tightest fit. */
    method FindBestFit(size: nat) returns (best: nat, before: nat, ghost k: nat)
      requires Valid()
      ensures BestOf(size, best, before, k, |free|)
    {
      hide Rep;
      best, before, k := 0, 0, 0;
      var prev, cur := 0, first;
      ghost var i: nat := 0;
      FirstLink();
      while cur != 0
        invariant i <= |free| && cur == Link(free, i) && prev == (if i == 0 then 0 else free[i - 1])
        invariant BestOf(size, best, before, k, i) && (best != 0 ==> best in mem && mem[best] == blocks[best])
        invariant forall j: nat | j < |free| :: free[j] in blocks && free[j] > 0
        decreases |free| - i
      {
        FreeAt(i);
        if mem[cur] >= size && (best == 0 || mem[cur] - size < mem[best] - size) {
          best, before, k := cur, prev, i;
          if mem[cur] == size { break; }
        }
        prev, cur := cur, mem[cur + 1];
        i := i + 1;
      }
    }

    /** Gives back the rear part of a live block if it is large enough to be of use. */
    method SplitAllocation(a: nat, n: nat)
      requires Valid() && a in live && a in blocks && 0 < n <= blocks[a]
      modifies `mem, `first, `blocks, `owner, `free
      ensures Valid() && a in blocks && mem.Keys == old(mem.Keys)
      ensures blocks[a] == if old(blocks[a]) - n <= LINK_WORDS then old(blocks[a]) else n
      ensures RearFree(free, blocks, a, n, old(blocks[a]), old(free))
      ensures Kept(old(mem), old(blocks), mem, blocks, live - {a})
    {
      hide Rep, Partition, Kept, Untouched;
      LiveAt(a);
      RepFacts(mem, first, blocks, owner, free, live);
      var size := mem[a];
      if size - n <= LINK_WORDS {
        KeptAll(mem, blocks, owner, live - {a});
        return;
      }
      var b := a + 1 + n;
      SplitOff(mem, first, blocks, owner, free, live, a, n, size);
      mem := mem[a := n][b := size - n - 1];
      mem := mem[b + 1 := first];
      first := b;
      blocks, owner, free := Cut(blocks, a, n, size), CutOwner(owner, a, n, size), [b] + free;
    }

    /** Takes the best fit off the free list. */
    method Unlink(best: nat, before: nat, ghost k: nat)
      requires Valid() && k < |free| && best == free[k] && before == (if k == 0 then 0 else free[k - 1])
      modifies `mem, `first, `free, `live
      ensures Valid() && mem.Keys == old(mem.Keys) && live == old(live) + {best} && best !in old(live) && best in blocks
      ensures Kept(old(mem), blocks, mem, blocks, old(live))
    {
      hide Rep, Partition, Kept, Untouched;
      FreeAt(k);
      FirstLink();
      FreeNotLive(k);
      RepFacts(mem, first, blocks, owner, free, live);
      Take(mem, first, blocks, owner, free, live, k);
      KeptFrom(mem, blocks, owner, Taken(mem, free, k), blocks, live);
      RepFacts(Taken(mem, free, k), if k == 0 then Link(free, 1) else first, blocks, owner, Without(free, k), live + {best});
      SameWords(Taken(mem, free, k).Keys, mem.Keys, blocks, owner);
      if before != 0 {
        FreeAt(k - 1);
        mem := mem[before + 1 := mem[best + 1]];
      } else {
        first := mem[best + 1];
      }
      free, live := Without(free, k), live + {best};
    }

    lemma FreeNotLive(k: nat)
      requires Valid() && k < |free|
      ensures free[k] !in live && (k > 0 ==> free[k - 1] != 0)
    {
      hide ListOk, HeadersOk;
      if k > 0 { BlockFacts(mem.Keys, blocks, owner, free[k - 1]); }
    }

    static lemma SameWords(x: set<nat>, y: set<nat>, blocks: map<nat, nat>, owner: map<nat, nat>)
      requires Partition(x, blocks, owner) && Partition(y, blocks, owner)
      ensures x == y
    {
    }

    /** Maps a new area and makes it one live block. */
    method AddArea(base: nat, len: nat)
      requires Valid() && base > 0 && len >= 2 && Unmapped(mem.Keys, base, len)
      modifies `mem, `blocks, `owner, `live
      ensures Valid() && live == old(live) + {base} && base !in old(live) && base in blocks && blocks[base] == len - 1
      ensures Kept(old(mem), old(blocks), mem, blocks, old(live))
      ensures mem.Keys == old(mem.Keys) + Area(base, len, 0).Keys
    {
      hide Rep, Partition, Kept, Untouched;
      RepFacts(mem, first, blocks, owner, free, live);
      MapArea(mem, first, blocks, owner, free, live, base, len);
      KeptFrom(mem, blocks, owner, Mapped(mem, base, len), OneBlock(blocks, base, len), live);
      mem := (mem + Area(base, len, 0))[base := len - 1];
      blocks, owner, live := OneBlock(blocks, base, len), owner + Area(base, len, base), live + {base};
    }

    /** Allocates at least the given number of bytes. The tightest free block that is large enough is
        reused; only if there is none, a new area is mapped at the given address, or nothing is
        returned if mapping fails. All live blocks are left alone. */
    method Malloc(bytes: nat, area: nat) returns (p: nat)
      requires Valid()
      requires area != 0 && NoFit(free, blocks, WordsFor(bytes)) ==> Unmapped(mem.Keys, area, AreaFor(WordsFor(bytes), page))
      modifies `mem, `first, `blocks, `owner, `free, `live
      ensures Valid() && Kept(old(mem), old(blocks), mem, blocks, old(live))
      ensures mem.Keys <= old(mem.Keys) + AreaWords(area, bytes, page)
      ensures p == 0 <==> area == 0 && NoFit(old(free), old(blocks), WordsFor(bytes))
      ensures p == 0 ==> live == old(live) && mem == old(mem) && blocks == old(blocks)
      ensures p != 0 ==> p > 1 && live == old(live) + {p - 1} && p - 1 !in old(live) && p - 1 in blocks
      ensures p != 0 ==> WordsFor(bytes) <= blocks[p - 1] <= WordsFor(bytes) + LINK_WORDS
      ensures !NoFit(old(free), old(blocks), WordsFor(bytes)) ==> p != 0 && mem.Keys == old(mem.Keys)
      ensures !NoFit(old(free), old(blocks), WordsFor(bytes)) ==> Tightest(old(free), old(blocks), WordsFor(bytes), p - 1)
      ensures p != 0 && NoFit(old(free), old(blocks), WordsFor(bytes)) ==>
                p == area + 1 && RearFree(free, blocks, area, WordsFor(bytes), AreaFor(WordsFor(bytes), page) - 1, old(free))
    {
      hide Rep, Kept, Unmapped, NoFit, Tightest, WordsFor, AreaFor;
      var n := WordsFor(bytes);
      var best, before: nat;
      ghost var k: nat;
      best, before, k := FindBestFit(n);
      FitFacts(n, best, before, k);
      if best != 0 {
        p := Reuse(n, best, before, k);
      } else if area == 0 {
        RepFacts(mem, first, blocks, owner, free, live);
        KeptAll(mem, blocks, owner, live);
        p := 0;
      } else {
        p := FromArea(n, area);
      }
    }

    lemma FitFacts(n: nat, best: nat, before: nat, k: nat)
      requires Valid() && BestOf(n, best, before, k, |free|)
      ensures NoFit(free, blocks, n) <==> best == 0
      ensures best != 0 ==> Tightest(free, blocks, n, best)
    {
      hide Rep;
      FirstLink();
      if best != 0 {
        forall f | f in free && f in blocks && blocks[f] >= n ensures blocks[best] <= blocks[f] {
          var j: nat :| j < |free| && free[j] == f;
        }
        assert free[k] == best;
      }
    }

    method Reuse(n: nat, best: nat, before: nat, ghost k: nat) returns (p: nat)
      requires Valid() && n > 0 && best != 0 && BestOf(n, best, before, k, |free|)
      modifies `mem, `first, `blocks, `owner, `free, `live
      ensures Valid() && Kept(old(mem), old(blocks), mem, blocks, old(live)) && mem.Keys == old(mem.Keys)
      ensures p == best + 1 && live == old(live) + {best} && best !in old(live) && best in blocks
      ensures n <= blocks[best] <= n + LINK_WORDS
    {
      hide Rep, Kept;
      ghost var mem0, blocks0, live0 := mem, blocks, live;
      Unlink(best, before, k);
      ghost var mem1 := mem;
      SplitAllocation(best, n);
      assert live0 <= live - {best};
      KeptTransitive(mem0, blocks0, mem1, blocks0, mem, blocks, live0, live - {best});
      p := best + 1;
    }

    method FromArea(n: nat, area: nat) returns (p: nat)
      requires Valid() && n > 0 && area > 0 && Unmapped(mem.Keys, area, AreaFor(n, page))
      modifies `mem, `first, `blocks, `owner, `free, `live
      ensures Valid() && Kept(old(mem), old(blocks), mem, blocks, old(live))
      ensures p == area + 1 && live == old(live) + {area} && area !in old(live) && area in blocks
      ensures n <= blocks[area] <= n + LINK_WORDS
      ensures RearFree(free, blocks, area, n, AreaFor(n, page) - 1, old(free))
      ensures mem.Keys == old(mem.Keys) + Area(area, AreaFor(n, page), 0).Keys
    {
      hide Rep, Partition, Kept;
      var len := AreaFor(n, page);
      ghost var mem0, blocks0, live0 := mem, blocks, live;
      AddArea(area, len);
      ghost var mem1, blocks1 := mem, blocks;
      SplitAllocation(area, n);
      assert live0 <= live - {area};
      KeptTransitive(mem0, blocks0, mem1, blocks1, mem, blocks, live0, live - {area});
      p := area + 1;
    }

    /** Puts a live block on the free list. */
    method Free(p: nat)
      requires Valid() && p > 0 && p - 1 in live
      modifies `mem, `first, `free, `live
      ensures Valid() && live == old(live) - {p - 1} && free == [p - 1] + old(free) && mem.Keys == old(mem.Keys)
      ensures Kept(old(mem), blocks, mem, blocks, live)
    {
      hide Rep, Partition, Kept, Untouched;
      var a: nat := p - 1;
      LiveAt(a);
      RepFacts(mem, first, blocks, owner, free, live);
      Push(mem, first, blocks, owner, free, live, a);
      KeptFrom(mem, blocks, owner, Pushed(mem, first, a), blocks, live - {a});
      mem := mem[a + 1 := first];
      first := a;
      free, live := [a] + free, live - {a};
    }

    /** The user's own writes. */
    method Store(p: nat, i: nat, v: nat)
      requires Valid() && p > 0 && p - 1 in live && p - 1 in blocks && i < blocks[p - 1]
      modifies `mem
      ensures Valid() && mem == old(mem)[p + i := v] && mem.Keys == old(mem.Keys)
      ensures Kept(old(mem), blocks, mem, blocks, live - {p - 1})
    {
      hide Rep, Kept;
      WriteWord(mem, first, blocks, owner, free, live, p - 1, p + i, v);
      mem := mem[p + i := v];
    }

    /** Copies the first n words of one live block to another. */
    method Copy(q: nat, p: nat, n: nat)
      requires Valid() && p > 0 && q > 0 && p != q && p - 1 in live && q - 1 in live && p - 1 in blocks && q - 1 in blocks
      requires n <= blocks[p - 1] && n <= blocks[q - 1]
      modifies `mem
      ensures Valid() && Kept(old(mem), blocks, mem, blocks, live - {q - 1}) && Copied(mem, q, old(mem), p, n)
      ensures mem.Keys == old(mem.Keys)
    {
      hide Rep, Kept;
      var i := 0;
      ghost var mem0 := mem;
      RepFacts(mem, first, blocks, owner, free, live);
      KeptAll(mem, blocks, owner, live - {q - 1});
      while i < n
        invariant i <= n && Valid() && Kept(mem0, blocks, mem, blocks, live - {q - 1}) && mem.Keys == mem0.Keys
        invariant Copied(mem, q, mem0, p, i)
      {
        WordKept(mem0, blocks, mem, blocks, live - {q - 1}, p - 1, p + i);
        ghost var mem1 := mem;
        Store(q, i, mem[p + i]);
        KeptTransitive(mem0, blocks, mem1, blocks, mem, blocks, live - {q - 1}, live - {q - 1});
        CopyMore(mem0, mem1, mem, q, p, i);
        i := i + 1;
      }
    }

    static lemma CopyMore(mem0: Memory, mem1: Memory, mem2: Memory, q: nat, p: nat, i: nat)
      requires Copied(mem1, q, mem0, p, i) && p + i in mem0 && mem2 == mem1[q + i := mem0[p + i]]
      ensures Copied(mem2, q, mem0, p, i + 1)
    {
      forall j: nat | j < i + 1 ensures CopiedWord(mem2, q, mem0, p, j) {
        if j < i { assert CopiedWord(mem1, q, mem0, p, j); }
      }
    }

    /** Grows a block: the old one if it is large enough, or else a new one with the old contents, after
        which the old one is free. If nothing can be allocated, everything stays as it is. */
    method Realloc(p: nat, bytes: nat, area: nat) returns (q: nat)
      requires Valid() && p > 0 && p - 1 in live && p - 1 in blocks
      requires area != 0 && bytes > 8 * blocks[p - 1] && NoFit(free, blocks, WordsFor(bytes)) ==>
                 Unmapped(mem.Keys, area, AreaFor(WordsFor(bytes), page))
      modifies `mem, `first, `blocks, `owner, `free, `live
      ensures Valid() && Kept(old(mem), old(blocks), mem, blocks, old(live) - {p - 1})
      ensures mem.Keys <= old(mem.Keys) + AreaWords(area, bytes, page)
      ensures q == 0 ==> area == 0 && blocks == old(blocks)
      ensures q == p || q - 1 !in old(live)
      ensures bytes <= 8 * old(blocks)[p - 1] ==> q == p && mem == old(mem) && blocks == old(blocks) && live == old(live)
      ensures q == 0 ==> live == old(live) && mem == old(mem)
      ensures q != 0 ==> q - 1 in live && q - 1 in blocks && 8 * blocks[q - 1] >= bytes && live == old(live) - {p - 1} + {q - 1}
      ensures q != 0 ==> Copied(mem, q, old(mem), p, old(blocks)[p - 1])
    {
      hide Rep, Kept, Partition, Unmapped, NoFit, AreaFor, WordsFor, Copied;
      ghost var mem0, blocks0, live0 := mem, blocks, live;
      LiveAt(p - 1);
      RepFacts(mem, first, blocks, owner, free, live);
      KeptAll(mem, blocks, owner, live - {p - 1});
      var size := mem[p - 1];
      if bytes <= 8 * size {
        CopyItself(mem, p, size);
        return p;
      }
      q := Malloc(bytes, area);
      if q == 0 { return; }
      SizeKept(mem0, blocks0, mem, blocks, live0, p - 1);
      ghost var mem1, blocks1 := mem, blocks;
      Copy(q, p, size);
      ghost var mem2 := mem;
      Free(p);
      assert live0 + {q - 1} - {q - 1} == live0;
      KeptSome(mem1, blocks1, mem2, blocks1, live0, live0 - {p - 1});
      KeptSome(mem0, blocks0, mem1, blocks1, live0, live0 - {p - 1});
      KeptTransitive(mem1, blocks1, mem2, blocks1, mem, blocks, live0 - {p - 1}, live);
      KeptTransitive(mem0, blocks0, mem1, blocks1, mem, blocks, live0 - {p - 1}, live0 - {p - 1});
      CopyThrough(mem0, blocks0, mem1, blocks1, mem2, mem, blocks, p, q, size, live0, live);
    }

    static lemma CopyItself(mem: Memory, p: nat, n: nat)
      requires forall w: nat | p <= w < p + n :: w in mem
      ensures Copied(mem, p, mem, p, n)
    {
    }
  }

  // ----- Whole runs -----

  // What a client does with the blocks it has names for. The area is where the system would map memory, or
  // zero if it would not.
  datatype Op =
    | New(h: nat, bytes: nat, area: nat)
    | Resize(h: nat, bytes: nat, area: nat)
    | Drop(h: nat)
    | Put(h: nat, i: nat, v: nat)
    | Get(h: nat, i: nat)

  // A block as its client sees it: the words it may use and those it has written.
  datatype Seen = Seen(words: nat, data: map<nat, nat>)

  type View = map<nat, Seen>

  /** Every block is memory of its own. */
  function ViewStep(m: View, op: Op, ok: bool): View {
    match op
    case New(h, bytes, _) => if ok && h !in m then m[h := Seen(WordsFor(bytes), map[])] else m
    case Resize(h, bytes, _) =>
      if ok && h in m && WordsFor(bytes) > m[h].words then m[h := m[h].(words := WordsFor(bytes))] else m
    case Drop(h) => m - {h}
    case Put(h, i, v) => if h in m && i < m[h].words then m[h := m[h].(data := m[h].data[i := v])] else m
    case Get(_, _) => m
  }

  function ViewRun(ops: seq<Op>, oks: seq<bool>): View
    requires |ops| == |oks|
  {
    if |ops| == 0 then map[] else ViewStep(ViewRun(ops[..|ops| - 1], oks[..|ops| - 1]), ops[|ops| - 1], oks[|ops| - 1])
  }

  /** A word written keeps its value until the next write to it or until its block is dropped, whatever
      happens to other blocks and other words and however often its block is resized. */
  lemma {:induction false} WrittenStays(before: seq<Op>, h: nat, i: nat, v: nat, after: seq<Op>, oks: seq<bool>)
    requires |oks| == |before| + 1 + |after|
    requires forall o | o in after :: o != Drop(h) && !(o.Put? && o.h == h && o.i == i)
    requires var was := ViewRun(before, oks[..|before|]); h in was && i < was[h].words
    ensures var now := ViewRun(before + [Put(h, i, v)] + after, oks);
            h in now && i < now[h].words && i in now[h].data && now[h].data[i] == v
    decreases |after|
  {
    var ops := before + [Put(h, i, v)] + after;
    if after == [] {
      assert ops[..|ops| - 1] == before;
    } else {
      var rest := after[..|after| - 1];
      assert oks[..|ops| - 1][..|before|] == oks[..|before|];
      WrittenStays(before, h, i, v, rest, oks[..|ops| - 1]);
      assert ops[..|ops| - 1] == before + [Put(h, i, v)] + rest;
      assert ops[|ops| - 1] == after[|after| - 1] && after[|after| - 1] in after;
    }
  }

  datatype Handle = Handle(ptr: nat, words: nat)

  // The block behind a handle.
  ghost predicate Behind(x: Handle, o: Seen, mem: Memory, blocks: map<nat, nat>, live: set<nat>) {
    && x.ptr > 0 && x.ptr - 1 in live && x.ptr - 1 in blocks && x.words == o.words <= blocks[x.ptr - 1]
    && forall i: nat | i in o.data :: i < o.words && x.ptr + i in mem && mem[x.ptr + i] == o.data[i]
  }

  ghost predicate Shows(hs: map<nat, Handle>, m: View, mem: Memory, blocks: map<nat, nat>, live: set<nat>) {
    && hs.Keys == m.Keys && (forall h | h in hs :: Behind(hs[h], m[h], mem, blocks, live))
    && forall g, h | g in hs && h in hs && hs[g].ptr == hs[h].ptr :: g == h
  }

  lemma BehindKept(x: Handle, o: Seen, mem: Memory, blocks: map<nat, nat>, live: set<nat>, mem': Memory, blocks': map<nat, nat>,
                   live': set<nat>, kept: set<nat>)
    requires Behind(x, o, mem, blocks, live) && Kept(mem, blocks, mem', blocks', kept) && x.ptr - 1 in kept && x.ptr - 1 in live'
    ensures Behind(x, o, mem', blocks', live')
  {
    hide Kept;
    SizeKept(mem, blocks, mem', blocks', kept, x.ptr - 1);
    forall i: nat | i in o.data ensures x.ptr + i in mem' && mem'[x.ptr + i] == o.data[i] {
      WordKept(mem, blocks, mem', blocks', kept, x.ptr - 1, x.ptr + i);
    }
  }

  /** What happens to one block does not show at the others. */
  lemma OthersKept(hs: map<nat, Handle>, m: View, mem: Memory, blocks: map<nat, nat>, live: set<nat>, h: nat,
                   mem': Memory, blocks': map<nat, nat>, live': set<nat>, kept: set<nat>)
    requires Shows(hs, m, mem, blocks, live) && Kept(mem, blocks, mem', blocks', kept) && kept <= live'
    requires forall a | a in live && (h in hs ==> a != hs[h].ptr - 1) :: a in kept
    ensures Shows(hs - {h}, m - {h}, mem', blocks', live')
  {
    hide Behind, Kept;
    forall g | g in hs && g != h ensures Behind(hs[g], m[g], mem', blocks', live') {
      BehindLive(hs[g], m[g], mem, blocks, live);
      BehindKept(hs[g], m[g], mem, blocks, live, mem', blocks', live', kept);
    }
  }

  lemma BehindLive(x: Handle, o: Seen, mem: Memory, blocks: map<nat, nat>, live: set<nat>)
    requires Behind(x, o, mem, blocks, live)
    ensures x.ptr > 0 && x.ptr - 1 in live && x.ptr - 1 in blocks && x.words == o.words <= blocks[x.ptr - 1]
  {
  }

  lemma ShowsMore(hs: map<nat, Handle>, m: View, mem: Memory, blocks: map<nat, nat>, live: set<nat>, h: nat, x: Handle, o: Seen)
    requires Shows(hs, m, mem, blocks, live) && h !in hs && Behind(x, o, mem, blocks, live)
    requires forall g | g in hs :: hs[g].ptr != x.ptr
    ensures Shows(hs[h := x], m[h := o], mem, blocks, live)
  {
    hide Behind;
  }

  method DoNew(t: Heap, hs: map<nat, Handle>, h: nat, bytes: nat, area: nat, ghost m: View) returns (hs': map<nat, Handle>, ok: bool)
    requires t.Valid() && Shows(hs, m, t.mem, t.blocks, t.live) && h !in hs
    requires area != 0 ==> Unmapped(t.mem.Keys, area, AreaFor(WordsFor(bytes), t.page))
    modifies t
    ensures t.Valid() && Shows(hs', ViewStep(m, New(h, bytes, area), ok), t.mem, t.blocks, t.live) && (area != 0 ==> ok)
    ensures t.mem.Keys <= old(t.mem.Keys) + AreaWords(area, bytes, t.page)
  {
    hide Rep, Kept, Unmapped, NoFit, Tightest, AreaFor, Behind;
    ghost var mem, blocks, live := t.mem, t.blocks, t.live;
    var p := t.Malloc(bytes, area);
    OthersKept(hs, m, mem, blocks, live, h, t.mem, t.blocks, t.live, live);
    assert hs - {h} == hs && m - {h} == m;
    ok := p != 0;
    hs' := hs;
    if ok {
      var x := Handle(p, WordsFor(bytes));
      forall g | g in hs ensures hs[g].ptr != p { BehindLive(hs[g], m[g], mem, blocks, live); }
      assert Behind(x, Seen(WordsFor(bytes), map[]), t.mem, t.blocks, t.live) by { NewBehind(x, t.mem, t.blocks, t.live); }
      ShowsMore(hs, m, t.mem, t.blocks, t.live, h, x, Seen(WordsFor(bytes), map[]));
      hs' := hs[h := x];
    }
  }

  lemma NewBehind(x: Handle, mem: Memory, blocks: map<nat, nat>, live: set<nat>)
    requires x.ptr > 0 && x.ptr - 1 in live && x.ptr - 1 in blocks && x.words <= blocks[x.ptr - 1]
    ensures Behind(x, Seen(x.words, map[]), mem, blocks, live)
  {
  }

  method DoResize(t: Heap, hs: map<nat, Handle>, h: nat, bytes: nat, area: nat, ghost m: View) returns (hs': map<nat, Handle>, ok: bool)
    requires t.Valid() && Shows(hs, m, t.mem, t.blocks, t.live) && h in hs && WordsFor(bytes) > hs[h].words
    requires area != 0 ==> Unmapped(t.mem.Keys, area, AreaFor(WordsFor(bytes), t.page))
    modifies t
    ensures t.Valid() && Shows(hs', ViewStep(m, Resize(h, bytes, area), ok), t.mem, t.blocks, t.live) && (area != 0 ==> ok)
    ensures t.mem.Keys <= old(t.mem.Keys) + AreaWords(area, bytes, t.page)
  {
    hide Rep, Kept, Unmapped, NoFit, AreaFor, Behind, Copied;
    ghost var mem, blocks, live := t.mem, t.blocks, t.live;
    var x := hs[h];
    BehindLive(x, m[h], mem, blocks, live);
    var q := t.Realloc(x.ptr, bytes, area);
    ok := q != 0;
    if !ok {
      return hs, false;
    }
    t.LiveAt(q - 1);
    EnoughWords(bytes, t.blocks[q - 1]);
    var y := Handle(q, WordsFor(bytes));
    OthersKept(hs, m, mem, blocks, live, h, t.mem, t.blocks, t.live, live - {x.ptr - 1});
    ResizedBehind(x, m[h], mem, blocks, live, y, t.mem, t.blocks, t.live);
    OtherPointers(hs, m, mem, blocks, live, h, q);
    ShowsAgain(hs, m, t.mem, t.blocks, t.live, h, y, m[h].(words := WordsFor(bytes)));
    hs' := hs[h := y];
  }

  // The new address is that of no other block.
  lemma OtherPointers(hs: map<nat, Handle>, m: View, mem: Memory, blocks: map<nat, nat>, live: set<nat>, h: nat, q: nat)
    requires Shows(hs, m, mem, blocks, live) && h in hs && q > 0 && (q == hs[h].ptr || q - 1 !in live)
    ensures forall g | g in hs && g != h :: hs[g].ptr != q
  {
    hide Behind;
    forall g | g in hs && g != h ensures hs[g].ptr != q { BehindLive(hs[g], m[g], mem, blocks, live); }
  }

  lemma ShowsAgain(hs: map<nat, Handle>, m: View, mem: Memory, blocks: map<nat, nat>, live: set<nat>, h: nat, x: Handle, o: Seen)
    requires Shows(hs - {h}, m - {h}, mem, blocks, live) && h in hs && h in m && Behind(x, o, mem, blocks, live)
    requires forall g | g in hs && g != h :: hs[g].ptr != x.ptr
    ensures Shows(hs[h := x], m[h := o], mem, blocks, live)
  {
    hide Behind, Shows;
    ShowsMore(hs - {h}, m - {h}, mem, blocks, live, h, x, o);
    assert hs[h := x] == (hs - {h})[h := x] && m[h := o] == (m - {h})[h := o];
  }

  lemma EnoughWords(bytes: nat, n: nat)
    requires 8 * n >= bytes && n > 0
    ensures WordsFor(bytes) <= n
  {
  }

  lemma ResizedBehind(x: Handle, o: Seen, mem: Memory, blocks: map<nat, nat>, live: set<nat>,
                      y: Handle, mem': Memory, blocks': map<nat, nat>, live': set<nat>)
    requires Behind(x, o, mem, blocks, live) && y.words >= x.words && y.ptr > 0
    requires y.ptr - 1 in live' && y.ptr - 1 in blocks' && y.words <= blocks'[y.ptr - 1] && Copied(mem', y.ptr, mem, x.ptr, blocks[x.ptr - 1])
    ensures Behind(y, o.(words := y.words), mem', blocks', live')
  {
    forall i: nat | i in o.data ensures i < y.words && y.ptr + i in mem' && mem'[y.ptr + i] == o.data[i] {
      assert CopiedWord(mem', y.ptr, mem, x.ptr, i);
    }
  }

  method DoDrop(t: Heap, hs: map<nat, Handle>, h: nat, ghost m: View) returns (hs': map<nat, Handle>)
    requires t.Valid() && Shows(hs, m, t.mem, t.blocks, t.live) && h in hs
    modifies t
    ensures t.Valid() && Shows(hs', m - {h}, t.mem, t.blocks, t.live) && t.mem.Keys == old(t.mem.Keys)
  {
    hide Rep, Kept, Behind;
    ghost var mem, blocks, live := t.mem, t.blocks, t.live;
    BehindLive(hs[h], m[h], mem, blocks, live);
    t.Free(hs[h].ptr);
    OthersKept(hs, m, mem, blocks, live, h, t.mem, t.blocks, t.live, t.live);
    hs' := hs - {h};
  }

  method DoPut(t: Heap, hs: map<nat, Handle>, h: nat, i: nat, v: nat, ghost m: View)
    requires t.Valid() && Shows(hs, m, t.mem, t.blocks, t.live) && h in hs && i < hs[h].words
    modifies t
    ensures t.Valid() && Shows(hs, ViewStep(m, Put(h, i, v), true), t.mem, t.blocks, t.live) && t.mem.Keys == old(t.mem.Keys)
  {
    hide Rep, Kept, Behind;
    ghost var mem, blocks, live := t.mem, t.blocks, t.live;
    var x := hs[h];
    BehindLive(x, m[h], mem, blocks, live);
    t.Store(x.ptr, i, v);
    OthersKept(hs, m, mem, blocks, live, h, t.mem, t.blocks, t.live, live - {x.ptr - 1});
    ghost var o := m[h].(data := m[h].data[i := v]);
    WrittenBehind(x, m[h], mem, blocks, live, i, v);
    OtherPointers(hs, m, mem, blocks, live, h, x.ptr);
    ShowsAgain(hs, m, t.mem, t.blocks, t.live, h, x, o);
    assert hs[h := x] == hs;
  }

  lemma WrittenBehind(x: Handle, o: Seen, mem: Memory, blocks: map<nat, nat>, live: set<nat>, i: nat, v: nat)
    requires Behind(x, o, mem, blocks, live) && i < o.words
    ensures Behind(x, o.(data := o.data[i := v]), mem[x.ptr + i := v], blocks, live)
  {
  }

  predicate Maps(op: Op) { op.New? || op.Resize? }

  ghost predicate InArea(op: Op, page: nat, w: nat)
    requires page > 0
  {
    Maps(op) && op.area != 0 && op.area <= w < op.area + AreaFor(WordsFor(op.bytes), page)
  }

  /** The system never maps the same word twice. */
  ghost predicate AreasApart(ops: seq<Op>, page: nat)
    requires page > 0
  {
    forall j: nat, k: nat, w: nat | j < k < |ops| && InArea(ops[j], page, w) :: !InArea(ops[k], page, w)
  }

  ghost predicate FromAreas(words: set<nat>, ops: seq<Op>, n: nat, page: nat)
    requires page > 0 && n <= |ops|
  {
    forall w | w in words :: exists j: nat :: j < n && InArea(ops[j], page, w)
  }

  lemma NextUnmapped(words: set<nat>, ops: seq<Op>, n: nat, page: nat)
    requires page > 0 && n < |ops| && AreasApart(ops, page) && FromAreas(words, ops, n, page) && Maps(ops[n]) && ops[n].area != 0
    ensures Unmapped(words, ops[n].area, AreaFor(WordsFor(ops[n].bytes), page))
  {
    hide AreaFor, WordsFor;
    forall w: nat | ops[n].area <= w < ops[n].area + AreaFor(WordsFor(ops[n].bytes), page) ensures w !in words {
      assert InArea(ops[n], page, w);
    }
  }

  lemma MoreMapped(words: set<nat>, words': set<nat>, ops: seq<Op>, n: nat, page: nat)
    requires page > 0 && n < |ops| && FromAreas(words, ops, n, page)
    requires words' <= words || (Maps(ops[n]) && words' <= words + AreaWords(ops[n].area, ops[n].bytes, page))
    ensures FromAreas(words', ops, n + 1, page)
  {
    hide AreaFor, WordsFor;
    forall w | w in words' ensures exists j: nat :: j < n + 1 && InArea(ops[j], page, w) {
      if w in words {
        var j: nat :| j < n && InArea(ops[j], page, w);
      } else {
        assert InArea(ops[n], page, w);
      }
    }
  }

  /** One step of the client. */
  method Step(t: Heap, hs: map<nat, Handle>, op: Op, ghost m: View) returns (hs': map<nat, Handle>, ok: bool, answer: Option<nat>)
    requires t.Valid() && Shows(hs, m, t.mem, t.blocks, t.live)
    requires Maps(op) && op.area != 0 ==> Unmapped(t.mem.Keys, op.area, AreaFor(WordsFor(op.bytes), t.page))
    modifies t
    ensures t.Valid() && Shows(hs', ViewStep(m, op, ok), t.mem, t.blocks, t.live)
    ensures !ok ==> Maps(op) && op.area == 0
    ensures op.Get? && op.h in m && op.i in m[op.h].data ==> answer == Some(m[op.h].data[op.i])
    ensures t.mem.Keys <= old(t.mem.Keys) || (Maps(op) && t.mem.Keys <= old(t.mem.Keys) + AreaWords(op.area, op.bytes, t.page))
  {
    hide Rep, Unmapped, AreaFor, Behind;
    hs', ok, answer := hs, true, None;
    match op
    case New(h, bytes, area) =>
      if h !in hs { hs', ok := DoNew(t, hs, h, bytes, area, m); }
    case Resize(h, bytes, area) =>
      if h in hs { BehindLive(hs[h], m[h], t.mem, t.blocks, t.live); }
      if h in hs && WordsFor(bytes) > hs[h].words { hs', ok := DoResize(t, hs, h, bytes, area, m); }
    case Drop(h) =>
      if h in hs { hs' := DoDrop(t, hs, h, m); } else { assert m - {h} == m; }
    case Put(h, i, v) =>
      if h in hs { BehindLive(hs[h], m[h], t.mem, t.blocks, t.live); }
      if h in hs && i < hs[h].words { DoPut(t, hs, h, i, v, m); }
    case Get(h, i) =>
      if h in hs {
        BehindLive(hs[h], m[h], t.mem, t.blocks, t.live);
        ReadBehind(hs[h], m[h], t.mem, t.blocks, t.live, i);
        if i < hs[h].words && hs[h].ptr + i in t.mem { answer := Some(t.mem[hs[h].ptr + i]); }
      }
  }

  lemma ReadBehind(x: Handle, o: Seen, mem: Memory, blocks: map<nat, nat>, live: set<nat>, i: nat)
    requires Behind(x, o, mem, blocks, live)
    ensures i in o.data ==> i < x.words && x.ptr + i in mem && mem[x.ptr + i] == o.data[i]
  {
  }

  /** Over every sequence of allocations, reallocations, frees, writes and reads, with the system mapping areas
      that do not overlap, each block is memory of its own: whatever was written through a name is read back
      through that name, until it is freed. A call fails only if the system maps nothing. */
  method Run(page: nat, ops: seq<Op>) returns (oks: seq<bool>, answers: seq<Option<nat>>)
    requires page > 0 && AreasApart(ops, page)
    ensures |oks| == |ops| && |answers| == |ops|
    ensures forall k: nat | k < |ops| && !oks[k] :: Maps(ops[k]) && ops[k].area == 0
    ensures forall k: nat | k < |ops| && ops[k].Get? ::
              var m := ViewRun(ops[..k], oks[..k]);
              ops[k].h in m && ops[k].i in m[ops[k].h].data ==> answers[k] == Some(m[ops[k].h].data[ops[k].i])
  {
    hide Rep, Shows, ViewRun, ViewStep, AreasApart, FromAreas, Unmapped, AreaFor, InArea;
    var t := new Heap(page);
    var hs: map<nat, Handle> := map[];
    oks, answers := [], [];
    ghost var m: View := map[];
    NothingShown(t.mem, t.blocks, t.live, ops, page);
    for k := 0 to |ops|
      invariant fresh(t) && t.Valid() && t.page == page && |oks| == k && |answers| == k && m == ViewRun(ops[..k], oks)
      invariant Shows(hs, m, t.mem, t.blocks, t.live) && FromAreas(t.mem.Keys, ops, k, page)
      invariant forall j: nat | j < k && !oks[j] :: Maps(ops[j]) && ops[j].area == 0
      invariant forall j: nat | j < k && ops[j].Get? :: Answered(ops, oks, j, answers[j])
    {
      if Maps(ops[k]) && ops[k].area != 0 { NextUnmapped(t.mem.Keys, ops, k, page); }
      ghost var words := t.mem.Keys;
      var ok: bool, answer: Option<nat>;
      hs, ok, answer := Step(t, hs, ops[k], m);
      MoreMapped(words, t.mem.Keys, ops, k, page);
      NextView(ops, oks, k, ok);
      assert !ops[k].Get? || Answered(ops, oks + [ok], k, answer) by { assert (oks + [ok])[..k] == oks; }
      forall j: nat | j < k && ops[j].Get? ensures Answered(ops, oks + [ok], j, answers[j]) {
        assert (oks + [ok])[..j] == oks[..j];
      }
      m := ViewStep(m, ops[k], ok);
      oks, answers := oks + [ok], answers + [answer];
    }
    forall k: nat | k < |ops| && ops[k].Get?
      ensures var m := ViewRun(ops[..k], oks[..k]);
              ops[k].h in m && ops[k].i in m[ops[k].h].data ==> answers[k] == Some(m[ops[k].h].data[ops[k].i])
    {
      assert Answered(ops, oks, k, answers[k]);
    }
  }

  ghost predicate Answered(ops: seq<Op>, oks: seq<bool>, k: nat, answer: Option<nat>)
    requires k < |ops| && k <= |oks| && ops[k].Get?
  {
    var m := ViewRun(ops[..k], oks[..k]);
    ops[k].h in m && ops[k].i in m[ops[k].h].data ==> answer == Some(m[ops[k].h].data[ops[k].i])
  }

  lemma NothingShown(mem: Memory, blocks: map<nat, nat>, live: set<nat>, ops: seq<Op>, page: nat)
    requires page > 0 && mem == map[]
    ensures ViewRun([], []) == map[] && Shows(map[], map[], mem, blocks, live) && ViewRun(ops[..0], []) == map[] && FromAreas(mem.Keys, ops, 0, page)
  {
  }

  lemma NextView(ops: seq<Op>, oks: seq<bool>, k: nat, ok: bool)
    requires k == |oks| < |ops|
    ensures ViewRun(ops[..k + 1], oks + [ok]) == ViewStep(ViewRun(ops[..k], oks), ops[k], ok)
  {
    assert ops[..k + 1][..k] == ops[..k] && (oks + [ok])[..k] == oks;
  }
}
