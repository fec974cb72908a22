/** The binomial-tree reduction over P ranks with rendezvous messages. Each rank runs its own loop
    over the steps; in step k it first receives from rank + 2^k if it is a multiple of 2^(k+1), and
    then sends to rank - 2^k if it is an odd multiple of 2^k. */
module Reduction {
  import opened Common

  function Pow2(k: nat): nat
    ensures Pow2(k) > 0
  {
    if k == 0 then 1 else 2 * Pow2(k - 1)
  }

  // Program position 2k is the receive of step k, position 2k + 1 its send. holds lists the ranks
  // whose data went into a rank's data, sends counts the messages a rank has sent.
  datatype State<D> = State(pos: seq<nat>, data: seq<D>, holds: seq<seq<nat>>, sends: seq<nat>)

  /** The loop guard of step k. */
  predicate Looping(P: nat, k: nat) {
    Pow2(k) < P
  }

  predicate Finished(P: nat, pos: nat) {
    pos % 2 == 0 && !Looping(P, pos / 2)
  }

  predicate ReceivesIn(P: nat, r: nat, k: nat) {
    r % (2 * Pow2(k)) == 0 && r + Pow2(k) < P
  }

  predicate SendsIn(r: nat, k: nat) {
    r % Pow2(k) == 0 && r % (2 * Pow2(k)) != 0
  }

  ghost predicate Sized<D>(P: nat, s: State<D>) {
    |s.pos| == P && |s.data| == P && |s.holds| == P && |s.sends| == P
  }

  ghost predicate Init<D>(P: nat, s: State<D>) {
    && Sized(P, s)
    && forall r: nat | r < P :: s.pos[r] == 0 && s.holds[r] == [r] && s.sends[r] == 0
  }

  /** Rank r moves on by itself: its current receive or send does not apply. */
  ghost predicate Skip<D>(P: nat, s: State<D>, r: nat, s': State<D>) {
    && r < P && Sized(P, s) && Looping(P, s.pos[r] / 2)
    && (if s.pos[r] % 2 == 0 then !ReceivesIn(P, r, s.pos[r] / 2) else !SendsIn(r, s.pos[r] / 2))
    && s' == s.(pos := s.pos[r := s.pos[r] + 1])
  }

  /** Rank r at a receive from q and rank q at a send to r meet, and r merges what q has. */
  ghost predicate Meet<D>(P: nat, s: State<D>, r: nat, q: nat, s': State<D>, merge: (D, D) -> D) {
    && r < P && q < P && r != q && Sized(P, s)
    && s.pos[r] % 2 == 0 && Looping(P, s.pos[r] / 2) && ReceivesIn(P, r, s.pos[r] / 2) && q == r + Pow2(s.pos[r] / 2)
    && s.pos[q] % 2 == 1 && Looping(P, s.pos[q] / 2) && SendsIn(q, s.pos[q] / 2) && r == q - Pow2(s.pos[q] / 2)
    && s' == State(s.pos[r := s.pos[r] + 1][q := s.pos[q] + 1],
                   s.data[r := merge(s.data[r], s.data[q])],
                   s.holds[r := s.holds[r] + s.holds[q]],
                   s.sends[q := s.sends[q] + 1])
  }

  ghost predicate Next<D(!new)>(P: nat, s: State<D>, s': State<D>, merge: (D, D) -> D) {
    || (exists r: nat :: Skip(P, s, r, s'))
    || (exists r: nat, q: nat :: Meet(P, s, r, q, s', merge))
  }

  // ----- Which steps a rank sends in -----

  lemma {:induction false} Divides(k: nat, j: nat, r: nat)
    requires k <= j && r % Pow2(j) == 0
    ensures Pow2(k) <= Pow2(j) && r % Pow2(k) == 0
    decreases j
  {
    if k < j {
      HalfDivides(Pow2(j - 1), r);
      Divides(k, j - 1, r);
    }
  }

  lemma HalfDivides(p: nat, r: nat)
    requires p > 0 && r % (2 * p) == 0
    ensures r % p == 0
  {
    var m := r / (2 * p);
    assert r == 2 * p * m == p * (2 * m);
    Multiple(p, 2 * m);
  }

  lemma {:induction false} Remainder(p: nat, m: nat, i: nat)
    requires i < p
    ensures (p * m + i) % p == i
  {
    if m > 0 {
      Remainder(p, m - 1, i);
      AddModulus(p * (m - 1) + i, p);
      OneMore(p, m, i);
    } else {
      NoMore(p, i);
    }
  }

  lemma OneMore(p: int, m: int, i: int)
    ensures p * m + i == (p * (m - 1) + i) + p
  {
  }

  lemma NoMore(p: nat, i: nat)
    requires i < p
    ensures (p * 0 + i) % p == i
  {
  }

  /** A rank sends in at most one step, and receives in none from that step on. */
  lemma SendsInOne(r: nat, k: nat, j: nat, P: nat)
    requires SendsIn(r, k)
    ensures SendsIn(r, j) ==> j == k
    ensures j >= k ==> !ReceivesIn(P, r, j)
  {
    if k < j && r % Pow2(j) == 0 { Divides(k + 1, j, r); }
    if j < k { Divides(j + 1, k, r); }
    if j >= k && r % (2 * Pow2(j)) == 0 { Divides(k + 1, j + 1, r); }
  }

  /** Every rank but 0 sends in some step below log2 of its number. */
  lemma {:induction false} SendsSomewhere(r: nat, k: nat) returns (j: nat)
    requires r > 0 && r % Pow2(k) == 0
    ensures j >= k && SendsIn(r, j) && Pow2(j) <= r
    decreases r - Pow2(k)
  {
    assert Pow2(k) <= r by {
      if r < Pow2(k) { Remainder(Pow2(k), 0, r); }
    }
    if r % (2 * Pow2(k)) != 0 {
      j := k;
    } else {
      j := SendsSomewhere(r, k + 1);
    }
  }

  /** The two ends of a message agree on the step. */
  lemma ReceiverMeetsSender(P: nat, r: nat, k: nat)
    ensures ReceivesIn(P, r, k) ==> SendsIn(r + Pow2(k), k)
  {
    hide Pow2;
    if ReceivesIn(P, r, k) { OddMultiple(Pow2(k), r); }
  }

  lemma OddMultiple(p: nat, r: nat)
    requires p > 0 && r % (2 * p) == 0
    ensures (r + p) % p == 0 && (r + p) % (2 * p) == p
  {
    var m := r / (2 * p);
    assert r == (2 * p) * m;
    TwiceAndOne(p, m);
    Multiple(p, 2 * m + 1);
    Remainder(2 * p, m, p);
  }

  lemma TwiceAndOne(p: nat, m: nat)
    ensures (2 * p) * m + p == p * (2 * m + 1)
  {
  }

  lemma SenderMeetsReceiver(P: nat, q: nat, k: nat)
    requires SendsIn(q, k) && q < P
    ensures q >= Pow2(k) && ReceivesIn(P, q - Pow2(k), k)
  {
    hide Pow2;
    var p := Pow2(k);
    var m := q / p;
    assert q == p * m;
    OddQuotient(p, m);
    Multiple(2 * p, m / 2);
  }

  lemma OddQuotient(p: nat, m: nat)
    requires p > 0 && (p * m) % (2 * p) != 0
    ensures p * m == (2 * p) * (m / 2) + p
  {
    TwiceAndOne(p, m / 2);
    if m % 2 == 0 {
      assert p * m == (2 * p) * (m / 2);
      Multiple(2 * p, m / 2);
    } else {
      assert m == 2 * (m / 2) + 1;
    }
  }

  lemma {:induction false} PowOrder(k: nat, j: nat)
    ensures k < j ==> Pow2(k) < Pow2(j)
    decreases j
  {
    if k + 1 < j { PowOrder(k, j - 1); }
  }

  // ----- The invariant -----

  function Range(lo: nat, hi: nat): (l: seq<nat>)
    requires lo <= hi
    ensures |l| == hi - lo && forall i: nat | i < |l| :: l[i] == lo + i
    decreases hi - lo
  {
    if lo == hi then [] else [lo] + Range(lo + 1, hi)
  }

  function Min(a: nat, b: nat): nat { if a < b then a else b }

  /** What rank r holds at position p: the contiguous ranks of its subtree so far, until its send. */
  ghost predicate HoldsOk(P: nat, r: nat, p: nat, h: seq<nat>)
    requires r < P
  {
    var k := p / 2;
    if p % 2 == 0 then
      r % Pow2(k) == 0 ==> h == Range(r, Min(r + Pow2(k), P))
    else
      && (r % (2 * Pow2(k)) == 0 ==> h == Range(r, Min(r + 2 * Pow2(k), P)))
      && (SendsIn(r, k) ==> h == Range(r, Min(r + Pow2(k), P)))
  }

  /** A rank is past its send exactly when its receiver is past the matching receive. */
  ghost predicate InStep(P: nat, pos: seq<nat>, r: nat, k: nat)
    requires |pos| == P && r < P
  {
    ReceivesIn(P, r, k) ==> (pos[r + Pow2(k)] > 2 * k + 1 <==> pos[r] > 2 * k)
  }

  /** A rank has sent one message once it is past its send and none before. */
  ghost predicate SentOk(r: nat, p: nat, n: nat) {
    && (r == 0 ==> n == 0)
    && forall k: nat | SendsIn(r, k) :: n == if p > 2 * k + 1 then 1 else 0
  }

  ghost predicate RankOk(P: nat, r: nat, p: nat, h: seq<nat>, n: nat)
    requires r < P
  {
    HoldsOk(P, r, p, h) && SentOk(r, p, n) && (p > 0 ==> Looping(P, (p - 1) / 2))
  }

  ghost predicate Inv<D>(P: nat, s: State<D>) {
    && Sized(P, s)
    && (forall r: nat | r < P :: RankOk(P, r, s.pos[r], s.holds[r], s.sends[r]))
    && (forall r: nat, k: nat | r < P :: InStep(P, s.pos, r, k))
  }

  lemma InitInv<D>(P: nat, s: State<D>)
    requires Init(P, s)
    ensures Inv(P, s)
  {
    forall r: nat | r < P
      ensures RankOk(P, r, s.pos[r], s.holds[r], s.sends[r])
    {
      assert Range(r, r + 1) == [r];
    }
  }

  lemma RangeJoin(lo: nat, mid: nat, hi: nat)
    requires lo <= mid <= hi
    ensures Range(lo, mid) + Range(mid, hi) == Range(lo, hi)
  {
  }

  lemma SkipRank(P: nat, r: nat, p: nat, h: seq<nat>, n: nat)
    requires r < P && RankOk(P, r, p, h, n) && Looping(P, p / 2)
    requires if p % 2 == 0 then !ReceivesIn(P, r, p / 2) else !SendsIn(r, p / 2)
    ensures RankOk(P, r, p + 1, h, n)
  {
    var k := p / 2;
    assert p % 2 == 1 ==> (p + 1) / 2 == k + 1 && Pow2(k + 1) == 2 * Pow2(k);
    if p % 2 == 0 && r % (2 * Pow2(k)) == 0 { HalfDivides(Pow2(k), r); }
    forall j: nat | SendsIn(r, j)
      ensures n == if p + 1 > 2 * j + 1 then 1 else 0
    {
      assert p == 2 * j + 1 ==> j == k;
    }
  }

  lemma SkipInStep(P: nat, pos: seq<nat>, r: nat, r': nat, k: nat)
    requires |pos| == P && r < P && r' < P && InStep(P, pos, r', k)
    requires if pos[r] % 2 == 0 then !ReceivesIn(P, r, pos[r] / 2) else !SendsIn(r, pos[r] / 2)
    ensures InStep(P, pos[r := pos[r] + 1], r', k)
  {
    ReceiverMeetsSender(P, r', k);
  }

  lemma SkipInv<D>(P: nat, s: State<D>, r: nat, s': State<D>)
    requires Inv(P, s) && Skip(P, s, r, s')
    ensures Inv(P, s')
  {
    hide RankOk, InStep, ReceivesIn, SendsIn;
    SkipRank(P, r, s.pos[r], s.holds[r], s.sends[r]);
    forall r': nat, k: nat | r' < P
      ensures InStep(P, s'.pos, r', k)
    {
      SkipInStep(P, s.pos, r, r', k);
    }
  }

  lemma MeetReceiver(P: nat, r: nat, k: nat, h: seq<nat>, n: nat, g: seq<nat>, m: nat)
    requires ReceivesIn(P, r, k) && RankOk(P, r, 2 * k, h, n) && RankOk(P, r + Pow2(k), 2 * k + 1, g, m)
    requires Looping(P, k)
    ensures RankOk(P, r, 2 * k + 1, h + g, n)
  {
    hide Pow2, SendsIn, Range, HoldsOk;
    assert (2 * k + 1) / 2 == k;
    assert SentOk(r, 2 * k + 1, n) by {
      forall j: nat | SendsIn(r, j) ensures n == if 2 * k + 1 > 2 * j + 1 then 1 else 0 {
        assert 2 * k > 2 * j + 1 <==> 2 * k + 1 > 2 * j + 1;
      }
    }
    MeetHolds(P, r, k, Pow2(k), h, g);
  }

  lemma MeetHolds(P: nat, r: nat, k: nat, p: nat, h: seq<nat>, g: seq<nat>)
    requires p == Pow2(k) && ReceivesIn(P, r, k) && HoldsOk(P, r, 2 * k, h) && HoldsOk(P, r + p, 2 * k + 1, g)
    ensures HoldsOk(P, r, 2 * k + 1, h + g)
  {
    hide Pow2, SendsIn, Range;
    HalfDivides(p, r);
    ReceiverMeetsSender(P, r, k);
    NotSender(r, k);
    assert (2 * k) / 2 == k && (2 * k) % 2 == 0 && (2 * k + 1) / 2 == k && (2 * k + 1) % 2 == 1;
    assert h == Range(r, Min(r + p, P));
    assert g == Range(r + p, Min(r + p + p, P));
    RangeJoin(r, r + p, Min(r + 2 * p, P));
  }

  lemma NotSender(r: nat, k: nat)
    requires r % (2 * Pow2(k)) == 0
    ensures !SendsIn(r, k)
  {
  }

  lemma MeetSender(P: nat, q: nat, k: nat, h: seq<nat>, n: nat)
    requires q < P && SendsIn(q, k) && RankOk(P, q, 2 * k + 1, h, n) && Looping(P, k)
    ensures RankOk(P, q, 2 * k + 2, h, n + 1)
  {
    hide Range;
    assert (2 * k + 2) / 2 == k + 1 && Pow2(k + 1) == 2 * Pow2(k);
    assert SentOk(q, 2 * k + 2, n + 1) by { SentNow(P, q, k, n); }
  }

  lemma SentNow(P: nat, q: nat, k: nat, n: nat)
    requires SendsIn(q, k) && SentOk(q, 2 * k + 1, n)
    ensures SentOk(q, 2 * k + 2, n + 1)
  {
    assert q != 0 by { if q == 0 { Remainder(2 * Pow2(k), 0, 0); } }
    forall j: nat | SendsIn(q, j)
      ensures n + 1 == if 2 * k + 2 > 2 * j + 1 then 1 else 0
    {
      hide SendsIn;
      SendsInOne(q, k, j, P);
    }
  }

  lemma MeetInStep(P: nat, pos: seq<nat>, r: nat, k: nat, r': nat, k': nat)
    requires |pos| == P && r' < P && InStep(P, pos, r', k')
    requires ReceivesIn(P, r, k) && pos[r] == 2 * k && pos[r + Pow2(k)] == 2 * k + 1
    ensures InStep(P, pos[r := 2 * k + 1][r + Pow2(k) := 2 * k + 2], r', k')
  {
    ReceiverMeetsSender(P, r, k);
    ReceiverMeetsSender(P, r', k');
    if ReceivesIn(P, r', k') && r' + Pow2(k') == r + Pow2(k) {
      SendsInOne(r + Pow2(k), k, k', P);
    }
  }

  lemma SameStep<D>(P: nat, s: State<D>, r: nat, q: nat, s': State<D>, merge: (D, D) -> D)
    requires Meet(P, s, r, q, s', merge)
    ensures s.pos[r] == 2 * (s.pos[r] / 2) && s.pos[q] == s.pos[r] + 1
  {
    PowOrder(s.pos[r] / 2, s.pos[q] / 2);
    PowOrder(s.pos[q] / 2, s.pos[r] / 2);
  }

  lemma MeetInv<D>(P: nat, s: State<D>, r: nat, q: nat, s': State<D>, merge: (D, D) -> D)
    requires Inv(P, s) && Meet(P, s, r, q, s', merge)
    ensures Inv(P, s')
  {
    hide RankOk, InStep, ReceivesIn, SendsIn;
    SameStep(P, s, r, q, s', merge);
    var k := s.pos[r] / 2;
    MeetReceiver(P, r, k, s.holds[r], s.sends[r], s.holds[q], s.sends[q]);
    MeetSender(P, q, k, s.holds[q], s.sends[q]);
    forall r': nat, k': nat | r' < P
      ensures InStep(P, s'.pos, r', k')
    {
      MeetInStep(P, s.pos, r, k, r', k');
    }
  }

  lemma NextInv<D(!new)>(P: nat, s: State<D>, s': State<D>, merge: (D, D) -> D)
    requires Inv(P, s) && Next(P, s, s', merge)
    ensures Inv(P, s')
  {
    hide Inv, Skip, Meet;
    if r: nat :| Skip(P, s, r, s') {
      SkipInv(P, s, r, s');
    } else {
      var r: nat, q: nat :| Meet(P, s, r, q, s', merge);
      MeetInv(P, s, r, q, s', merge);
    }
  }

  // ----- No state is stuck, and every run ends -----

  lemma LoopingBelow(P: nat, k: nat, j: nat)
    requires Looping(P, k) && j <= k
    ensures Looping(P, j)
  {
    PowOrder(j, k);
  }

  /** The unfinished rank that is furthest behind. */
  lemma {:induction false} FurthestBehind(P: nat, pos: seq<nat>, n: nat) returns (r: nat)
    requires |pos| == P && n <= P && exists i: nat :: i < n && !Finished(P, pos[i])
    ensures r < n && !Finished(P, pos[r])
    ensures forall i: nat | i < n && !Finished(P, pos[i]) :: pos[r] <= pos[i]
  {
    if i: nat :| i < n - 1 && !Finished(P, pos[i]) {
      r := FurthestBehind(P, pos, n - 1);
      if !Finished(P, pos[n - 1]) && pos[n - 1] < pos[r] { r := n - 1; }
    } else {
      r := n - 1;
    }
  }

  lemma ReceiveMoves<D(!new)>(P: nat, s: State<D>, r: nat, k: nat, merge: (D, D) -> D) returns (s': State<D>)
    requires Inv(P, s) && r < P && s.pos[r] == 2 * k && Looping(P, k) && ReceivesIn(P, r, k)
    requires forall i: nat | i < P && !Finished(P, s.pos[i]) :: s.pos[r] <= s.pos[i]
    ensures Next(P, s, s', merge)
  {
    hide Inv, Finished, ReceivesIn, SendsIn, Looping, Skip, Meet, Pow2;
    var q := PartnerAt(P, s, r, k);
    if s.pos[q] == 2 * k {
      s' := s.(pos := s.pos[q := s.pos[q] + 1]);
      SkipsReceive(P, s, q, k, s');
    } else {
      s' := State(s.pos[r := s.pos[r] + 1][q := s.pos[q] + 1], s.data[r := merge(s.data[r], s.data[q])],
                  s.holds[r := s.holds[r] + s.holds[q]], s.sends[q := s.sends[q] + 1]);
      assert Meet(P, s, r, q, s', merge) by { MeetsSender(P, s, r, q, k, s', merge); }
    }
  }

  // The sender is at the receive or the send of the same step.
  lemma PartnerAt<D>(P: nat, s: State<D>, r: nat, k: nat) returns (q: nat)
    requires Inv(P, s) && r < P && s.pos[r] == 2 * k && Looping(P, k) && ReceivesIn(P, r, k)
    requires forall i: nat | i < P && !Finished(P, s.pos[i]) :: s.pos[r] <= s.pos[i]
    ensures Sized(P, s) && q == r + Pow2(k) < P && r != q && SendsIn(q, k) && 2 * k <= s.pos[q] <= 2 * k + 1
  {
    hide RankOk, SendsIn;
    q := r + Pow2(k);
    ReceiverMeetsSender(P, r, k);
    assert InStep(P, s.pos, r, k);
    LoopingBelow(P, k, s.pos[q] / 2);
  }

  lemma SkipsReceive<D>(P: nat, s: State<D>, q: nat, k: nat, s': State<D>)
    requires Sized(P, s) && q < P && SendsIn(q, k) && s.pos[q] == 2 * k && Looping(P, k)
    requires s' == s.(pos := s.pos[q := s.pos[q] + 1])
    ensures Skip(P, s, q, s')
  {
    hide Looping, Pow2;
    assert 2 * k % 2 == 0 && 2 * k / 2 == k;
  }

  lemma MeetsSender<D>(P: nat, s: State<D>, r: nat, q: nat, k: nat, s': State<D>, merge: (D, D) -> D)
    requires Sized(P, s) && q == r + Pow2(k) < P && r != q && SendsIn(q, k) && ReceivesIn(P, r, k) && Looping(P, k)
    requires s.pos[r] == 2 * k && s.pos[q] == 2 * k + 1
    requires s' == State(s.pos[r := s.pos[r] + 1][q := s.pos[q] + 1], s.data[r := merge(s.data[r], s.data[q])],
                         s.holds[r := s.holds[r] + s.holds[q]], s.sends[q := s.sends[q] + 1])
    ensures Meet(P, s, r, q, s', merge)
  {
    hide ReceivesIn, SendsIn, Looping, Pow2;
    assert 2 * k % 2 == 0 && 2 * k / 2 == k && (2 * k + 1) % 2 == 1 && (2 * k + 1) / 2 == k;
  }

  lemma SenderNotFirst<D>(P: nat, s: State<D>, r: nat, k: nat)
    requires Inv(P, s) && r < P && s.pos[r] == 2 * k + 1 && SendsIn(r, k)
    ensures exists i: nat :: i < P && !Finished(P, s.pos[i]) && s.pos[i] < s.pos[r]
  {
    SenderMeetsReceiver(P, r, k);
    var d := r - Pow2(k);
    assert InStep(P, s.pos, d, k);
    assert Looping(P, k) by { assert RankOk(P, r, s.pos[r], s.holds[r], s.sends[r]); }
    LoopingBelow(P, k, s.pos[d] / 2);
    assert d < P && !Finished(P, s.pos[d]) && s.pos[d] < s.pos[r];
  }

  /** Deadlock freedom: as long as one rank has not finished, some rank can move. */
  lemma SomeRankMoves<D(!new)>(P: nat, s: State<D>, merge: (D, D) -> D) returns (s': State<D>)
    requires Inv(P, s) && exists r: nat :: r < P && !Finished(P, s.pos[r])
    ensures Next(P, s, s', merge)
  {
    hide InStep, ReceivesIn, SendsIn, HoldsOk, SentOk;
    var r := FurthestBehind(P, s.pos, P);
    var k := s.pos[r] / 2;
    assert Looping(P, k) by { assert RankOk(P, r, s.pos[r], s.holds[r], s.sends[r]); }
    if s.pos[r] % 2 == 0 && ReceivesIn(P, r, k) {
      s' := ReceiveMoves(P, s, r, k, merge);
    } else {
      if s.pos[r] % 2 == 1 && SendsIn(r, k) { SenderNotFirst(P, s, r, k); }
      s' := s.(pos := s.pos[r := s.pos[r] + 1]);
      assert Skip(P, s, r, s');
    }
  }

  // The number of steps of the loop.
  function {:induction false} Steps(P: nat, k: nat): (n: nat)
    ensures n >= k && !Looping(P, n) && (n > k ==> Looping(P, n - 1))
    decreases P - Pow2(k)
  {
    if Looping(P, k) then Steps(P, k + 1) else k
  }

  function Total(pos: seq<nat>): nat {
    if |pos| == 0 then 0 else pos[0] + Total(pos[1..])
  }

  lemma {:induction false} TotalBound(pos: seq<nat>, bound: nat)
    requires forall i: nat | i < |pos| :: pos[i] <= bound
    ensures Total(pos) <= |pos| * bound
  {
    if |pos| > 0 {
      TotalBound(pos[1..], bound);
      assert |pos| * bound == bound + |pos[1..]| * bound;
    }
  }

  lemma {:induction false} TotalUpdate(pos: seq<nat>, i: nat, x: nat)
    requires i < |pos|
    ensures Total(pos[i := x]) == Total(pos) - pos[i] + x
  {
    if i == 0 {
      assert pos[i := x][1..] == pos[1..];
    } else {
      assert pos[i := x][1..] == pos[1..][i - 1 := x];
      TotalUpdate(pos[1..], i - 1, x);
    }
  }

  lemma TotalGrows<D(!new)>(P: nat, s: State<D>, s': State<D>, merge: (D, D) -> D)
    requires Next(P, s, s', merge)
    ensures Total(s'.pos) > Total(s.pos)
  {
    hide Total, ReceivesIn, SendsIn, Looping;
    if r: nat :| Skip(P, s, r, s') {
      TotalUpdate(s.pos, r, s.pos[r] + 1);
    } else {
      var r: nat, q: nat :| Meet(P, s, r, q, s', merge);
      TotalUpdate(s.pos, r, s.pos[r] + 1);
      TotalUpdate(s.pos[r := s.pos[r] + 1], q, s.pos[q] + 1);
    }
  }

  lemma PositionBound<D>(P: nat, s: State<D>, r: nat)
    requires Inv(P, s) && r < P
    ensures s.pos[r] <= 2 * Steps(P, 0)
  {
    if s.pos[r] > 2 * Steps(P, 0) {
      assert RankOk(P, r, s.pos[r], s.holds[r], s.sends[r]);
      LoopingBelow(P, (s.pos[r] - 1) / 2, Steps(P, 0));
    }
  }

  ghost predicate IsRun<D(!new)>(P: nat, run: seq<State<D>>, merge: (D, D) -> D) {
    && |run| > 0 && Init(P, run[0])
    && forall i: nat | i + 1 < |run| :: Next(P, run[i], run[i + 1], merge)
  }

  /** The invariant holds along every run, and no run is longer than twice the number of steps times
      the number of ranks. */
  lemma {:induction false} RunInv<D(!new)>(P: nat, run: seq<State<D>>, merge: (D, D) -> D)
    requires IsRun(P, run, merge)
    ensures Inv(P, run[|run| - 1])
    ensures |run| - 1 <= Total(run[|run| - 1].pos) <= P * (2 * Steps(P, 0))
  {
    hide Inv, Next, Init, Total;
    var s := run[|run| - 1];
    if |run| == 1 {
      InitInv(P, s);
    } else {
      var before := run[..|run| - 1];
      assert run[0] == before[0] && Next(P, run[|run| - 2], run[|run| - 2 + 1], merge);
      forall i: nat | i + 1 < |before|
        ensures Next(P, before[i], before[i + 1], merge)
      {
        assert Next(P, run[i], run[i + 1], merge);
      }
      RunInv(P, before, merge);
      NextInv(P, run[|run| - 2], s, merge);
      TotalGrows(P, run[|run| - 2], s, merge);
    }
    RunBound(P, s);
  }

  lemma RunBound<D>(P: nat, s: State<D>)
    requires Inv(P, s)
    ensures Total(s.pos) <= P * (2 * Steps(P, 0))
  {
    forall r: nat | r < P ensures s.pos[r] <= 2 * Steps(P, 0) { PositionBound(P, s, r); }
    TotalBound(s.pos, 2 * Steps(P, 0));
  }

  // ----- What the ranks hold -----

  /** After step k, a rank divisible by 2^(k+1) holds exactly the ranks from itself up to itself plus
      2^(k+1), each once and in order. */
  lemma AfterStep<D>(P: nat, s: State<D>, r: nat, k: nat)
    requires Inv(P, s) && r < P && s.pos[r] == 2 * (k + 1) && r % Pow2(k + 1) == 0
    ensures s.holds[r] == Range(r, Min(r + Pow2(k + 1), P))
  {
    hide InStep, SentOk, Pow2, Range;
    assert RankOk(P, r, s.pos[r], s.holds[r], s.sends[r]);
    assert (2 * (k + 1)) / 2 == k + 1 && (2 * (k + 1)) % 2 == 0;
  }

  lemma PastStep(P: nat, p: nat, k: nat)
    requires Finished(P, p) && Looping(P, k)
    ensures p > 2 * k + 1
  {
    if p / 2 <= k { LoopingBelow(P, k, p / 2); }
  }

  /** When all ranks have finished, rank 0 holds every rank once and has sent nothing, and every other
      rank has sent exactly one message. */
  lemma FinalState<D>(P: nat, s: State<D>)
    requires P > 0 && Inv(P, s) && forall r: nat | r < P :: Finished(P, s.pos[r])
    ensures s.holds[0] == Range(0, P) && s.sends[0] == 0
    ensures forall r: nat | 0 < r < P :: s.sends[r] == 1
  {
    assert RankOk(P, 0, s.pos[0], s.holds[0], s.sends[0]) && Finished(P, s.pos[0]);
    assert 0 % Pow2(s.pos[0] / 2) == 0 by { Remainder(Pow2(s.pos[0] / 2), 0, 0); }
    forall r: nat | 0 < r < P
      ensures s.sends[r] == 1
    {
      assert RankOk(P, r, s.pos[r], s.holds[r], s.sends[r]);
      assert r % Pow2(0) == 0;
      var k := SendsSomewhere(r, 0);
      assert Finished(P, s.pos[r]);
      PastStep(P, s.pos[r], k);
    }
  }

  // ----- The data -----

  /** Merging keeps a relation between a rank's data and the ranks it stands for. */
  ghost predicate Respects<D(!new)>(merge: (D, D) -> D, rel: (D, seq<nat>) -> bool) {
    forall a: D, b: D, x: seq<nat>, y: seq<nat> | rel(a, x) && rel(b, y) :: rel(merge(a, b), x + y)
  }

  ghost predicate Related<D(!new)>(P: nat, s: State<D>, rel: (D, seq<nat>) -> bool) {
    Sized(P, s) && forall r: nat | r < P :: rel(s.data[r], s.holds[r])
  }

  /** So does this one step of a run, for what its ranks hold. */
  ghost predicate KeptBy<D(!new)>(P: nat, s: State<D>, s': State<D>, merge: (D, D) -> D, rel: (D, seq<nat>) -> bool) {
    forall r: nat, q: nat | Meet(P, s, r, q, s', merge) && rel(s.data[r], s.holds[r]) && rel(s.data[q], s.holds[q]) ::
      rel(s'.data[r], s.holds[r] + s.holds[q])
  }

  ghost predicate KeptAlong<D(!new)>(P: nat, run: seq<State<D>>, merge: (D, D) -> D, rel: (D, seq<nat>) -> bool) {
    forall i: nat | i + 1 < |run| :: KeptBy(P, run[i], run[i + 1], merge, rel)
  }

  lemma NextRelated<D(!new)>(P: nat, s: State<D>, s': State<D>, merge: (D, D) -> D, rel: (D, seq<nat>) -> bool)
    requires Next(P, s, s', merge) && KeptBy(P, s, s', merge, rel) && Related(P, s, rel)
    ensures Related(P, s', rel)
  {
    if r: nat :| Skip(P, s, r, s') {
    } else {
      var r: nat, q: nat :| Meet(P, s, r, q, s', merge);
      assert rel(s'.data[r], s.holds[r] + s.holds[q]);
    }
  }

  lemma {:induction false} RunRelated<D(!new)>(P: nat, run: seq<State<D>>, merge: (D, D) -> D,
                                               rel: (D, seq<nat>) -> bool)
    requires IsRun(P, run, merge) && KeptAlong(P, run, merge, rel) && Related(P, run[0], rel)
    ensures Related(P, run[|run| - 1], rel)
  {
    hide Related, Next, Init, KeptBy;
    if |run| > 1 {
      var before := run[..|run| - 1];
      assert Next(P, run[|run| - 2], run[|run| - 2 + 1], merge) && KeptBy(P, run[|run| - 2], run[|run| - 2 + 1], merge, rel);
      forall i: nat | i + 1 < |before|
        ensures Next(P, before[i], before[i + 1], merge) && KeptBy(P, before[i], before[i + 1], merge, rel)
      {
        assert Next(P, run[i], run[i + 1], merge) && KeptBy(P, run[i], run[i + 1], merge, rel);
      }
      RunRelated(P, before, merge, rel);
      NextRelated(P, run[|run| - 2], run[|run| - 1], merge, rel);
    }
  }

  /** The reduction is correct for every interleaving of the ranks: when all have finished, rank 0's
      data stands for all the ranks, each once, whatever relation the merges of the run keep. */
  lemma ReductionAlong<D(!new)>(P: nat, run: seq<State<D>>, merge: (D, D) -> D, rel: (D, seq<nat>) -> bool)
    requires P > 0 && IsRun(P, run, merge) && KeptAlong(P, run, merge, rel)
    requires forall r: nat | r < P :: rel(run[0].data[r], [r])
    requires var s := run[|run| - 1]; |s.pos| == P && forall r: nat | r < P :: Finished(P, s.pos[r])
    ensures |run[|run| - 1].data| == P && rel(run[|run| - 1].data[0], Range(0, P))
  {
    hide Finished, KeptAlong, RankOk, InStep, Next, Range;
    RunInv(P, run, merge);
    RunRelated(P, run, merge, rel);
    FinalState(P, run[|run| - 1]);
  }

  /** In particular for every relation that the merge respects on all data. */
  lemma ReductionCorrect<D(!new)>(P: nat, run: seq<State<D>>, merge: (D, D) -> D, rel: (D, seq<nat>) -> bool)
    requires P > 0 && IsRun(P, run, merge) && Respects(merge, rel)
    requires forall r: nat | r < P :: rel(run[0].data[r], [r])
    requires var s := run[|run| - 1]; |s.pos| == P && forall r: nat | r < P :: Finished(P, s.pos[r])
    ensures |run[|run| - 1].data| == P && rel(run[|run| - 1].data[0], Range(0, P))
  {
    hide IsRun, Finished, Range;
    forall i: nat | i + 1 < |run| ensures KeptBy(P, run[i], run[i + 1], merge, rel) { MergeKeeps(P, run[i], run[i + 1], merge, rel); }
    ReductionAlong(P, run, merge, rel);
  }

  lemma MergeKeeps<D(!new)>(P: nat, s: State<D>, s': State<D>, merge: (D, D) -> D, rel: (D, seq<nat>) -> bool)
    requires Respects(merge, rel)
    ensures KeptBy(P, s, s', merge, rel)
  {
    forall r: nat, q: nat | Meet(P, s, r, q, s', merge) && rel(s.data[r], s.holds[r]) && rel(s.data[q], s.holds[q])
      ensures rel(s'.data[r], s.holds[r] + s.holds[q])
    {
      assert s'.data[r] == merge(s.data[r], s.data[q]);
    }
  }
}
