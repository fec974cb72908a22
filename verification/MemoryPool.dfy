/** The metadata memory pool: memory is handed out from the end of the newest chunk, chunks are never
    given back, and another pool's chunks can be taken over. */
module MemoryPools {
  import opened Common

  const CHUNK_SIZE: nat := 65536

  datatype Range = Range(at: nat, len: nat)

  datatype Chunk = Chunk(ptr: nat, wmark: nat, size: nat)

  function Max(a: nat, b: nat): nat { if a < b then b else a }

  ghost predicate PowerOfTwo(a: nat) {
    a == 1 || (a > 0 && a % 2 == 0 && PowerOfTwo(a / 2))
  }

  predicate Apart(x: Range, y: Range) {
    x.at + x.len <= y.at || y.at + y.len <= x.at
  }

  predicate Within(x: Range, y: Range) {
    y.at <= x.at && x.at + x.len <= y.at + y.len
  }

  function Whole(c: Chunk): Range { Range(c.ptr, c.size) }

  function Taken(c: Chunk): Range { Range(c.ptr, c.wmark) }

  function Wholes(chunks: seq<Chunk>): (r: seq<Range>)
    ensures |r| == |chunks| && forall i: nat | i < |r| :: r[i] == Whole(chunks[i])
  {
    seq(|chunks|, i requires 0 <= i < |chunks| => Whole(chunks[i]))
  }

  function Sizes(chunks: seq<Chunk>): nat {
    if chunks == [] then 0 else Sizes(chunks[..|chunks| - 1]) + chunks[|chunks| - 1].size
  }

  function Marks(chunks: seq<Chunk>): nat {
    if chunks == [] then 0 else Marks(chunks[..|chunks| - 1]) + chunks[|chunks| - 1].wmark
  }

  // ----- What was handed out -----

  ghost predicate ChunksOk(chunks: seq<Chunk>) {
    && (forall i: nat | i < |chunks| :: chunks[i].wmark <= chunks[i].size)
    && (forall i: nat, j: nat | i < j < |chunks| :: Apart(Whole(chunks[i]), Whole(chunks[j])))
  }

  /** Every range handed out lies in the used part of its chunk, apart from the others there. */
  ghost predicate GivenIn(c: Chunk, given: seq<Range>) {
    && (forall k: nat | k < |given| :: Within(given[k], Taken(c)))
    && (forall k: nat, m: nat | k < m < |given| :: Apart(given[k], given[m]))
  }

  ghost predicate Rep(chunks: seq<Chunk>, given: seq<seq<Range>>) {
    && ChunksOk(chunks) && |given| == |chunks|
    && (forall i: nat | i < |chunks| :: GivenIn(chunks[i], given[i]))
  }

  /** No two ranges handed out overlap, in whichever chunks they lie. */
  lemma GivenApart(chunks: seq<Chunk>, given: seq<seq<Range>>, i: nat, k: nat, j: nat, m: nat)
    requires Rep(chunks, given) && i < |given| && j < |given| && k < |given[i]| && m < |given[j]| && (i != j || k != m)
    ensures Apart(given[i][k], given[j][m])
  {
    hide Apart;
    assert GivenIn(chunks[i], given[i]) && GivenIn(chunks[j], given[j]);
    if i != j {
      var a, b := if i < j then i else j, if i < j then j else i;
      assert Apart(Whole(chunks[a]), Whole(chunks[b]));
      ApartWithin(given[i][k], Whole(chunks[i]), given[j][m], Whole(chunks[j]));
    } else {
      var a, b := if k < m then k else m, if k < m then m else k;
      assert Apart(given[i][a], given[i][b]);
      ApartEitherWay(given[i][k], given[i][m]);
    }
  }

  lemma ApartWithin(x: Range, a: Range, y: Range, b: Range)
    requires Within(x, a) && Within(y, b) && (Apart(a, b) || Apart(b, a))
    ensures Apart(x, y)
  {
  }

  lemma ApartEitherWay(x: Range, y: Range)
    ensures Apart(x, y) <==> Apart(y, x)
  {
  }

  /** Handing out more of the last chunk. */
  lemma TakeMore(chunks: seq<Chunk>, given: seq<seq<Range>>, r: Range, wmark: nat)
    requires Rep(chunks, given) && chunks != []
    requires var c := chunks[|chunks| - 1]; c.ptr + c.wmark <= r.at && r.at + r.len == c.ptr + wmark && wmark <= c.size
    ensures var n := |chunks| - 1;
            Rep(chunks[n := chunks[n].(wmark := wmark)], given[n := given[n] + [r]])
  {
    hide Apart;
    var n := |chunks| - 1;
    var c, g := chunks[n], given[n] + [r];
    var c' := c.(wmark := wmark);
    assert GivenIn(c', g) by {
      assert GivenIn(c, given[n]);
      forall k: nat | k < |given[n]| ensures Within(g[k], Taken(c')) { assert Within(given[n][k], Taken(c)); }
      forall k: nat, m: nat | k < m < |g| ensures Apart(g[k], g[m]) {
        if m == |given[n]| {
          assert Within(given[n][k], Taken(c));
          BehindIsApart(given[n][k], c, r);
        }
      }
    }
    var chunks' := chunks[n := c'];
    forall i: nat, j: nat | i < j < |chunks'| ensures Apart(Whole(chunks'[i]), Whole(chunks'[j])) {
      assert Whole(chunks'[i]) == Whole(chunks[i]) && Whole(chunks'[j]) == Whole(chunks[j]);
    }
  }

  lemma BehindIsApart(x: Range, c: Chunk, r: Range)
    requires Within(x, Taken(c)) && c.ptr + c.wmark <= r.at
    ensures Apart(x, r)
  {
  }

  /** A new chunk. */
  lemma AddChunk(chunks: seq<Chunk>, given: seq<seq<Range>>, c: Chunk)
    requires Rep(chunks, given) && c.wmark == 0
    requires forall i: nat | i < |chunks| :: Apart(Whole(chunks[i]), Whole(c))
    ensures Rep(chunks + [c], given + [[]])
  {
    hide Apart;
  }

  lemma MarksSnoc(chunks: seq<Chunk>, c: Chunk)
    ensures Sizes(chunks + [c]) == Sizes(chunks) + c.size && Marks(chunks + [c]) == Marks(chunks) + c.wmark
  {
    assert (chunks + [c])[..|chunks|] == chunks;
  }

  lemma MarksGrow(chunks: seq<Chunk>, wmark: nat)
    requires chunks != []
    ensures var n := |chunks| - 1;
            var chunks' := chunks[n := chunks[n].(wmark := wmark)];
            Sizes(chunks') == Sizes(chunks) && Marks(chunks') == Marks(chunks) - chunks[n].wmark + wmark
  {
    var n := |chunks| - 1;
    assert chunks[n := chunks[n].(wmark := wmark)][..n] == chunks[..n];
  }

  lemma {:induction false} MarksJoin(a: seq<Chunk>, b: seq<Chunk>)
    ensures Sizes(a + b) == Sizes(a) + Sizes(b) && Marks(a + b) == Marks(a) + Marks(b)
  {
    if b == [] {
      assert a + b == a;
    } else {
      MarksJoin(a, b[..|b| - 1]);
      assert (a + b)[..|a + b| - 1] == a + b[..|b| - 1];
    }
  }

  class MemoryPool {
    var chunks: seq<Chunk>
    var totalReserved: nat
    var totalUsed: nat
    ghost var given: seq<seq<Range>>  // the ranges handed out, by chunk

    ghost predicate Valid()
      reads this
    {
      Rep(chunks, given) && totalReserved == Sizes(chunks) && totalUsed == Marks(chunks)
    }

    constructor (size: nat, area: nat)
      ensures Valid() && chunks == [Chunk(area, 0, Max(size, CHUNK_SIZE))] && given == [[]]
    {
      chunks, totalReserved, totalUsed := [], 0, 0;
      given := [];
      new;
      Expand(size, area);
    }

    /** Adds a chunk at some address, of the usual size or as large as asked for. */
    method Expand(bytes: nat, area: nat)
      requires Valid() && forall i: nat | i < |chunks| :: Apart(Whole(chunks[i]), Range(area, Max(bytes, CHUNK_SIZE)))
      modifies this
      ensures Valid() && chunks == old(chunks) + [Chunk(area, 0, Max(bytes, CHUNK_SIZE))] && given == old(given) + [[]]
    {
      hide Rep;
      var len := Max(bytes, CHUNK_SIZE);
      AddChunk(chunks, given, Chunk(area, 0, len));
      MarksSnoc(chunks, Chunk(area, 0, len));
      chunks := chunks + [Chunk(area, 0, len)];
      given := given + [[]];
      totalReserved := totalReserved + len;
    }

    // The last chunk has no room, judged as if the whole alignment were lost.
    predicate NeedsChunk(bytes: nat, alignment: nat)
      reads this
    {
      |chunks| == 0 || chunks[|chunks| - 1].wmark + bytes + alignment > chunks[|chunks| - 1].size
    }

    /** Hands out the next aligned address of the last chunk. The totals are kept in any case; the range
        lies in its chunk, apart from everything handed out before, if and only if it ends there. */
    method Advance(bytes: nat, alignment: nat) returns (p: nat)
      requires Valid() && alignment > 0 && |chunks| > 0
      modifies this
      ensures var n := |old(chunks)| - 1;
              var c := old(chunks)[n];
              && p == RoundUp(c.ptr + c.wmark, alignment)
              && chunks == old(chunks)[n := c.(wmark := p + bytes - c.ptr)]
              && |old(given)| == |old(chunks)| && given == old(given)[n := old(given)[n] + [Range(p, bytes)]]
              && (Valid() <==> p + bytes <= c.ptr + c.size)
      ensures totalReserved == Sizes(chunks) && totalUsed == Marks(chunks)
    {
      hide Rep, Marks, Sizes;
      RepFacts(chunks, given);
      var n := |chunks| - 1;
      p := RoundUp(chunks[n].ptr + chunks[n].wmark, alignment);
      var wmark := p + bytes - chunks[n].ptr;
      if wmark <= chunks[n].size {
        TakeMore(chunks, given, Range(p, bytes), wmark);
      }
      MarksGrow(chunks, wmark);
      totalUsed := totalUsed + wmark - chunks[n].wmark;
      chunks := chunks[n := chunks[n].(wmark := wmark)];
      given := given[n := given[n] + [Range(p, bytes)]];
      if Rep(chunks, given) {
        RepFacts(chunks, given);
        assert chunks[n].wmark <= chunks[n].size;
      }
    }

    /** Hands out an aligned range that lies in its chunk, apart from everything handed out before, and
        keeps the totals; without room and without leave to expand there is none. In a new chunk, which
        is no larger than what is asked for, this holds if and only if the bytes lost for alignment
        still fit, so always if its address is aligned. */
    method Allocate(bytes: nat, alignment: nat, canExpand: bool, area: nat) returns (r: Option<nat>)
      requires Valid() && PowerOfTwo(alignment)
      requires NeedsChunk(bytes, alignment) && canExpand ==>
                 forall i: nat | i < |chunks| :: Apart(Whole(chunks[i]), Range(area, Max(bytes, CHUNK_SIZE)))
      modifies this
      ensures r.None? <==> old(NeedsChunk(bytes, alignment)) && !canExpand
      ensures r.None? ==> Valid() && chunks == old(chunks) && given == old(given)
      ensures r.Some? ==> r.value % alignment == 0 && totalReserved == Sizes(chunks) && totalUsed == Marks(chunks)
      ensures r.Some? && !old(NeedsChunk(bytes, alignment)) ==>
                && Valid() && |given| == |old(given)| > 0 && Wholes(chunks) == Wholes(old(chunks))
                && given == old(given)[|given| - 1 := old(given)[|given| - 1] + [Range(r.value, bytes)]]
      ensures r.Some? && old(NeedsChunk(bytes, alignment)) ==>
                && given == old(given) + [[Range(r.value, bytes)]]
                && Wholes(chunks) == Wholes(old(chunks)) + [Range(area, Max(bytes, CHUNK_SIZE))]
                && r.value == RoundUp(area, alignment)
                && (Valid() <==> RoundUp(area, alignment) - area + bytes <= Max(bytes, CHUNK_SIZE))
                && (area % alignment == 0 ==> Valid())
    {
      hide Rep, Marks, Sizes;
      RepFacts(chunks, given);
      if NeedsChunk(bytes, alignment) {
        if !canExpand { return None; }
        Expand(bytes, area);
      }
      RepFacts(chunks, given);
      AlignedStays(area, alignment);
      var p := Advance(bytes, alignment);
      assert old(NeedsChunk(bytes, alignment)) ==> given == old(given) + [[Range(p, bytes)]] by {
        if old(NeedsChunk(bytes, alignment)) { FirstGiven(old(given), Range(p, bytes)); }
      }
      r := Some(p);
    }

    /** Takes over all chunks of another pool. */
    method Merge(other: MemoryPool)
      requires other != this && Valid() && other.Valid()
      requires forall i: nat, j: nat | i < |other.chunks| && j < |chunks| :: Apart(Whole(other.chunks[i]), Whole(chunks[j]))
      modifies this, other
      ensures Valid() && other.Valid() && given == old(other.given) + old(given) && other.given == []
      ensures totalReserved == old(totalReserved) + old(other.totalReserved)
      ensures totalUsed == old(totalUsed) + old(other.totalUsed)
    {
      hide Rep, Marks, Sizes;
      JoinPools(other.chunks, other.given, chunks, given);
      MarksJoin(other.chunks, chunks);
      chunks, given := other.chunks + chunks, other.given + given;
      other.chunks, other.given := [], [];
      totalReserved := totalReserved + other.totalReserved;
      totalUsed := totalUsed + other.totalUsed;
      other.totalReserved, other.totalUsed := 0, 0;
      NoChunks();
    }
  }

  lemma RepFacts(chunks: seq<Chunk>, given: seq<seq<Range>>)
    requires Rep(chunks, given)
    ensures |given| == |chunks| && forall i: nat | i < |chunks| :: chunks[i].wmark <= chunks[i].size
  {
  }

  lemma FirstGiven(given: seq<seq<Range>>, r: Range)
    ensures var g := given + [[]]; g[|given| := g[|given|] + [r]] == given + [[r]]
  {
    var g: seq<seq<Range>> := given + [[]];
    assert g[|given|] + [r] == [r];
  }

  lemma AlignedStays(p: nat, a: nat)
    requires PowerOfTwo(a)
    ensures a > 0 && (p % a == 0 ==> RoundUp(p, a) == p)
  {
  }

  lemma JoinPools(a: seq<Chunk>, g: seq<seq<Range>>, b: seq<Chunk>, h: seq<seq<Range>>)
    requires Rep(a, g) && Rep(b, h) && forall i: nat, j: nat | i < |a| && j < |b| :: Apart(Whole(a[i]), Whole(b[j]))
    ensures Rep(a + b, g + h)
  {
    hide Apart, GivenIn;
  }

  lemma NoChunks()
    ensures Rep([], []) && Marks([]) == 0 && Sizes([]) == 0
  {
  }

  /** A large range in a new chunk at an address that is not aligned ends behind its chunk, here by 16 bytes. */
  method UnalignedChunkExample() returns (pool: MemoryPool, p: nat)
    ensures |pool.chunks| == 2 && Whole(pool.chunks[1]) == Range(100016, 70000)
    ensures p == 100032 && |pool.given| == 2 && pool.given[1] == [Range(p, 70000)] && !Within(Range(p, 70000), Whole(pool.chunks[1]))
  {
    hide Rep;
    pool := new MemoryPool(0, 16);
    assert PowerOfTwo(64) by { assert PowerOfTwo(2) && PowerOfTwo(4) && PowerOfTwo(8) && PowerOfTwo(16) && PowerOfTwo(32); }
    var r := pool.Allocate(70000, 64, true, 100016);
    assert Wholes(pool.chunks)[1] == Range(100016, 70000);
    p := r.value;
  }

  // ----- Whole runs -----

  // What is asked for, and where the system would put a new chunk for it.
  datatype Request = Request(bytes: nat, alignment: nat, area: nat)

  function AreaOf(q: Request): Range { Range(q.area, Max(q.bytes, CHUNK_SIZE)) }

  function Areas(first: Range, qs: seq<Request>): (r: seq<Range>)
    ensures |r| == |qs| + 1 && r[0] == first && forall i: nat | i < |qs| :: r[i + 1] == AreaOf(qs[i])
  {
    [first] + seq(|qs|, i requires 0 <= i < |qs| => AreaOf(qs[i]))
  }

  /** The alignment is a power of two, and in a new chunk the bytes lost for it would fit. */
  ghost predicate RequestOk(q: Request) {
    PowerOfTwo(q.alignment) && RoundUp(q.area, q.alignment) - q.area + q.bytes <= Max(q.bytes, CHUNK_SIZE)
  }

  ghost predicate PairwiseApart(ranges: seq<Range>) {
    forall i: nat, j: nat | i < j < |ranges| :: Apart(ranges[i], ranges[j])
  }

  // Where a range is listed: its chunk and its place there.
  datatype Place = Place(chunk: nat, k: nat)

  /** Every range is listed, each at a place of its own. */
  ghost predicate Listed(given: seq<seq<Range>>, ranges: seq<Range>, places: seq<Place>) {
    && |places| == |ranges| && Distinct(places)
    && forall i: nat | i < |places| :: places[i].chunk < |given| && places[i].k < |given[places[i].chunk]|
                                       && given[places[i].chunk][places[i].k] == ranges[i]
  }

  lemma ListedApart(chunks: seq<Chunk>, given: seq<seq<Range>>, ranges: seq<Range>, places: seq<Place>)
    requires Rep(chunks, given) && Listed(given, ranges, places)
    ensures PairwiseApart(ranges)
  {
    hide Rep, Apart;
    forall i: nat, j: nat | i < j < |ranges| ensures Apart(ranges[i], ranges[j]) {
      GivenApart(chunks, given, places[i].chunk, places[i].k, places[j].chunk, places[j].k);
    }
  }

  // One more range at the end of the last chunk, or alone in a new one.
  lemma ListedMore(given: seq<seq<Range>>, ranges: seq<Range>, places: seq<Place>, r: Range)
    requires Listed(given, ranges, places)
    ensures |given| > 0 ==> var n := |given| - 1; Listed(given[n := given[n] + [r]], ranges + [r], places + [Place(n, |given[n]|)])
    ensures Listed(given + [[r]], ranges + [r], places + [Place(|given|, 0)])
  {
  }

  ghost predicate AllFrom(ranges: seq<Range>, areas: seq<Range>) {
    forall i: nat | i < |ranges| :: ranges[i] in areas
  }

  lemma NextApart(chunks: seq<Chunk>, areas: seq<Range>, n: nat)
    requires n < |areas| && PairwiseApart(areas) && AllFrom(Wholes(chunks), areas[..n])
    ensures forall i: nat | i < |chunks| :: Apart(Whole(chunks[i]), areas[n])
  {
    hide Apart;
    forall i: nat | i < |chunks| ensures Apart(Whole(chunks[i]), areas[n]) {
      assert Wholes(chunks)[i] in areas[..n];
      var j: nat :| j < n && areas[j] == Whole(chunks[i]);
    }
  }

  /** Over every sequence of requests, with the system handing out areas that do not overlap: every range is
      aligned, no two overlap, and the totals are the sums over the chunks. */
  method Run(size: nat, area: nat, qs: seq<Request>) returns (pool: MemoryPool, ps: seq<nat>)
    requires PairwiseApart(Areas(Range(area, Max(size, CHUNK_SIZE)), qs)) && forall q | q in qs :: RequestOk(q)
    ensures pool.Valid() && |ps| == |qs|
    ensures forall i: nat | i < |qs| :: qs[i].alignment > 0 && ps[i] % qs[i].alignment == 0
    ensures PairwiseApart(Handed(ps, qs))
  {
    hide Rep, PairwiseApart, Listed, AllFrom, MemoryPool.NeedsChunk, PowerOfTwo, Areas;
    pool := new MemoryPool(size, area);
    ghost var areas, places: seq<Place> := Areas(Range(area, Max(size, CHUNK_SIZE)), qs), [];
    ps := [];
    Started(pool.chunks, areas);
    for n := 0 to |qs|
      invariant fresh(pool) && pool.Valid() && |ps| == n && Listed(pool.given, Handed(ps, qs[..n]), places)
      invariant AllFrom(Wholes(pool.chunks), areas[..n + 1])
      invariant forall i: nat | i < n :: qs[i].alignment > 0 && ps[i] % qs[i].alignment == 0
    {
      var q := qs[n];
      assert q in qs && RequestOk(q);
      NextApart(pool.chunks, areas, n + 1);
      AlignedStays(q.area, q.alignment);
      ghost var chunks, given, fits := pool.chunks, pool.given, !pool.NeedsChunk(q.bytes, q.alignment);
      var r := pool.Allocate(q.bytes, q.alignment, true, q.area);
      ListedMore(given, Handed(ps, qs[..n]), places, Range(r.value, q.bytes));
      places := places + [if fits then Place(|given| - 1, |given[|given| - 1]|) else Place(|given|, 0)];
      MoreAreas(Wholes(chunks), areas, n + 1);
      HandedMore(ps, qs, n, r.value);
      ps := ps + [r.value];
    }
    assert qs[..|qs|] == qs;
    ListedApart(pool.chunks, pool.given, Handed(ps, qs), places);
  }

  function Handed(ps: seq<nat>, qs: seq<Request>): (r: seq<Range>)
    requires |ps| == |qs|
    ensures |r| == |ps| && forall i: nat | i < |r| :: r[i] == Range(ps[i], qs[i].bytes)
  {
    seq(|ps|, i requires 0 <= i < |ps| => Range(ps[i], qs[i].bytes))
  }

  lemma HandedMore(ps: seq<nat>, qs: seq<Request>, n: nat, p: nat)
    requires n == |ps| < |qs|
    ensures Handed(ps + [p], qs[..n + 1]) == Handed(ps, qs[..n]) + [Range(p, qs[n].bytes)]
  {
  }

  lemma Started(chunks: seq<Chunk>, areas: seq<Range>)
    requires |chunks| == 1 && |areas| > 0 && areas[0] == Whole(chunks[0])
    ensures AllFrom(Wholes(chunks), areas[..1]) && Listed([[]], [], [])
  {
    assert areas[..1][0] == areas[0];
  }

  lemma MoreAreas(ranges: seq<Range>, areas: seq<Range>, n: nat)
    requires n < |areas| && AllFrom(ranges, areas[..n])
    ensures AllFrom(ranges, areas[..n + 1]) && AllFrom(ranges + [areas[n]], areas[..n + 1])
  {
    assert areas[..n + 1] == areas[..n] + [areas[n]];
  }
}
