/** Function wrapping: for every wrapped function a linked chain of bindings ordered by tool priority,
    the wrappee pointer each binding calls on to, and the GOT slots that enter the chain. */
module WrapperChains {
  import opened Common

  type Name = string

  // What a GOT slot or a wrappee pointer can point to.
  datatype Address = Unresolved | Wrapper(id: nat) | Original(symbol: nat)

  datatype Binding = Binding(name: Name, priority: int, wrapper: nat, next: Option<nat>, wrappee: Address)

  datatype Slot = Slot(name: Name, target: Address)

  datatype Library = Library(filtered: bool, generation: nat, slots: seq<Slot>)

  // ----- Chains -----

  ghost predicate InRange(bs: seq<Binding>, ch: seq<nat>) {
    forall i: nat | i < |ch| :: ch[i] < |bs|
  }

  /** Higher priority first, and among equal priorities the earlier binding first. */
  predicate Before(bs: seq<Binding>, a: nat, b: nat)
    requires a < |bs| && b < |bs|
  {
    bs[a].priority > bs[b].priority || (bs[a].priority == bs[b].priority && a < b)
  }

  ghost predicate Ordered(bs: seq<Binding>, ch: seq<nat>)
    requires InRange(bs, ch)
  {
    forall i: nat, j: nat | i < j < |ch| :: Before(bs, ch[i], ch[j])
  }

  /** Each binding is linked to the next one and calls on to its wrapper; the last calls on to end. */
  ghost predicate Linked(bs: seq<Binding>, name: Name, ch: seq<nat>, end: Address)
    requires InRange(bs, ch)
  {
    forall i: nat | i < |ch| ::
      && bs[ch[i]].name == name
      && bs[ch[i]].next == (if i + 1 < |ch| then Some(ch[i + 1]) else None)
      && bs[ch[i]].wrappee == (if i + 1 < |ch| then Wrapper(bs[ch[i + 1]].wrapper) else end)
  }

  ghost predicate ChainOk(bs: seq<Binding>, name: Name, ch: seq<nat>, end: Address) {
    |ch| > 0 && InRange(bs, ch) && Distinct(ch) && Ordered(bs, ch) && Linked(bs, name, ch, end) && !end.Wrapper?
  }

  // The first n bindings are in the chain of their name; the others have not been placed yet.
  ghost predicate ChainsOk(bs: seq<Binding>, n: nat, chains: map<Name, seq<nat>>, ends: map<Name, Address>) {
    && n <= |bs| && chains.Keys == ends.Keys
    && (forall f | f in chains :: ChainOk(bs, f, chains[f], ends[f]) && Placed(chains[f], n))
    && (forall b: nat | b < n :: bs[b].name in chains && b in chains[bs[b].name])
    && (forall b: nat | n <= b < |bs| :: bs[b].next == None && bs[b].wrappee == Unresolved)
    && DistinctWrappers(bs)
  }

  ghost predicate Placed(ch: seq<nat>, n: nat) {
    forall i: nat | i < |ch| :: ch[i] < n
  }

  ghost predicate DistinctWrappers(bs: seq<Binding>) {
    forall a: nat, b: nat | a < b < |bs| :: bs[a].wrapper != bs[b].wrapper
  }

  /** Bindings of at least its priority come before position i, those of lower priority behind. */
  ghost predicate Fits(bs: seq<Binding>, ch: seq<nat>, i: nat, priority: int)
    requires InRange(bs, ch)
  {
    && i <= |ch|
    && (forall j: nat | j < i :: bs[ch[j]].priority >= priority)
    && (forall j: nat | i <= j < |ch| :: bs[ch[j]].priority < priority)
  }

  lemma InsertOrdered(bs: seq<Binding>, ch: seq<nat>, i: nat, b: nat)
    requires InRange(bs, ch) && Distinct(ch) && Ordered(bs, ch) && b < |bs|
    requires forall j: nat | j < |ch| :: ch[j] < b
    requires Fits(bs, ch, i, bs[b].priority)
    ensures InRange(bs, Inserted(ch, i, b)) && Distinct(Inserted(ch, i, b)) && Ordered(bs, Inserted(ch, i, b))
  {
    var r := Inserted(ch, i, b);
    forall x: nat, y: nat | x < y < |r|
      ensures r[x] < |bs| && r[y] < |bs| && r[x] != r[y] && Before(bs, r[x], r[y])
    {
      var x', y' := if x < i then x else x - 1, if y < i then y else y - 1;
      assert x != i ==> r[x] == ch[x'];
      assert y != i ==> r[y] == ch[y'];
    }
    assert InRange(bs, r) by {
      forall x: nat | x < |r| ensures r[x] < |bs| {
        assert x != i ==> r[x] == ch[if x < i then x else x - 1];
      }
    }
  }

  /** What insert_at_head does to the bindings. */
  function AtHead(bs: seq<Binding>, b: nat, head: nat): seq<Binding>
    requires b < |bs| && head < |bs|
  {
    bs[b := bs[b].(next := Some(head), wrappee := Wrapper(bs[head].wrapper))]
  }

  /** What insert_after_pos does to the bindings. */
  function AfterPos(bs: seq<Binding>, b: nat, pos: nat): seq<Binding>
    requires b < |bs| && pos < |bs| && b != pos
  {
    bs[b := bs[b].(next := bs[pos].next, wrappee := bs[pos].wrappee)]
      [pos := bs[pos].(next := Some(b), wrappee := Wrapper(bs[b].wrapper))]
  }

  lemma HeadLinked(bs: seq<Binding>, name: Name, ch: seq<nat>, end: Address, b: nat)
    requires InRange(bs, ch) && |ch| > 0 && Linked(bs, name, ch, end)
    requires b < |bs| && b !in ch && bs[b].name == name
    ensures var bs' := AtHead(bs, b, ch[0]); InRange(bs', Inserted(ch, 0, b)) && Linked(bs', name, Inserted(ch, 0, b), end)
  {
    var bs' := AtHead(bs, b, ch[0]);
    var r := Inserted(ch, 0, b);
    forall i: nat | i < |r| ensures r[i] < |bs'| { HeadLinkedAt(bs, name, ch, end, b, i); }
    assert InRange(bs', r);
    forall i: nat | i < |r|
      ensures bs'[r[i]].name == name && bs'[r[i]].next == (if i + 1 < |r| then Some(r[i + 1]) else None)
      ensures bs'[r[i]].wrappee == (if i + 1 < |r| then Wrapper(bs'[r[i + 1]].wrapper) else end)
    {
      HeadLinkedAt(bs, name, ch, end, b, i);
      if i + 1 < |r| { HeadLinkedAt(bs, name, ch, end, b, i + 1); }
    }
    assert Linked(bs', name, r, end);
  }

  lemma HeadLinkedAt(bs: seq<Binding>, name: Name, ch: seq<nat>, end: Address, b: nat, i: nat)
    requires InRange(bs, ch) && |ch| > 0 && Linked(bs, name, ch, end) && i <= |ch|
    requires b < |bs| && b !in ch && bs[b].name == name
    ensures var bs', r := AtHead(bs, b, ch[0]), Inserted(ch, 0, b);
            && |r| == |ch| + 1 && r[i] == (if i == 0 then b else ch[i - 1]) && r[i] < |bs'|
            && bs'[r[i]].wrapper == bs[r[i]].wrapper && bs'[r[i]].name == name
            && bs'[r[i]].next == (if i < |ch| then Some(ch[i]) else None)
            && bs'[r[i]].wrappee == (if i < |ch| then Wrapper(bs[ch[i]].wrapper) else end)
  {
    if i > 0 { assert ch[i - 1] in ch && ch[i - 1] < |bs|; }
  }

  lemma AfterLinked(bs: seq<Binding>, name: Name, ch: seq<nat>, end: Address, b: nat, i: nat)
    requires InRange(bs, ch) && Distinct(ch) && 0 < i <= |ch| && Linked(bs, name, ch, end)
    requires b < |bs| && b !in ch && bs[b].name == name
    ensures ch[i - 1] != b
    ensures var bs' := AfterPos(bs, b, ch[i - 1]); InRange(bs', Inserted(ch, i, b)) && Linked(bs', name, Inserted(ch, i, b), end)
  {
    assert ch[i - 1] in ch;
    var bs' := AfterPos(bs, b, ch[i - 1]);
    var r := Inserted(ch, i, b);
    forall j: nat | j < |r|
      ensures r[j] < |bs'|
    {
      AfterLinkedAt(bs, name, ch, end, b, i, j);
    }
    assert InRange(bs', r);
    forall j: nat | j < |r|
      ensures bs'[r[j]].name == name && bs'[r[j]].next == (if j + 1 < |r| then Some(r[j + 1]) else None)
      ensures bs'[r[j]].wrappee == (if j + 1 < |r| then Wrapper(bs'[r[j + 1]].wrapper) else end)
    {
      AfterLinkedAt(bs, name, ch, end, b, i, j);
      if j + 1 < |r| { AfterLinkedAt(bs, name, ch, end, b, i, j + 1); }
    }
    assert Linked(bs', name, r, end);
  }

  lemma AfterLinkedAt(bs: seq<Binding>, name: Name, ch: seq<nat>, end: Address, b: nat, i: nat, j: nat)
    requires InRange(bs, ch) && Distinct(ch) && 0 < i <= |ch| && Linked(bs, name, ch, end)
    requires b < |bs| && b !in ch && bs[b].name == name && ch[i - 1] != b && j <= |ch|
    ensures var bs' := AfterPos(bs, b, ch[i - 1]);
            var r := Inserted(ch, i, b);
            && r[j] < |bs'| && bs'[r[j]].wrapper == bs[r[j]].wrapper && bs'[r[j]].name == name
            && bs'[r[j]].next == (if j < |ch| then Some(r[j + 1]) else None)
            && bs'[r[j]].wrappee == (if j < |ch| then Wrapper(bs[r[j + 1]].wrapper) else end)
  {
    var r := Inserted(ch, i, b);
    var j' := if j < i then j else j - 1;
    if j != i {
      assert r[j] == ch[j'] && ch[j'] in ch;
      assert j' != i - 1 ==> ch[j'] != ch[i - 1];
    }
    if j < |ch| { assert j + 1 != i ==> r[j + 1] == ch[if j + 1 < i then j + 1 else j]; }
    assert Linked(bs, name, ch, end) ==> bs[ch[i - 1]].name == name;
  }

  lemma ChainUntouched(bs: seq<Binding>, bs': seq<Binding>, f: Name, ch: seq<nat>, end: Address)
    requires ChainOk(bs, f, ch, end) && |bs'| >= |bs|
    requires forall i: nat | i < |ch| :: bs'[ch[i]] == bs[ch[i]]
    ensures ChainOk(bs', f, ch, end)
  {
    forall i: nat, j: nat | i < j < |ch| ensures Before(bs', ch[i], ch[j]) {
      assert Before(bs, ch[i], ch[j]);
    }
    forall i: nat | i < |ch|
      ensures bs'[ch[i]].wrappee == (if i + 1 < |ch| then Wrapper(bs'[ch[i + 1]].wrapper) else end)
    {
      assert bs[ch[i]].wrappee == (if i + 1 < |ch| then Wrapper(bs[ch[i + 1]].wrapper) else end);
      if i + 1 < |ch| { assert bs'[ch[i + 1]] == bs[ch[i + 1]]; }
    }
  }

  /** The bindings after placing binding n at position i of its chain. */
  function Place(bs: seq<Binding>, n: nat, ch: seq<nat>, i: nat): seq<Binding>
    requires n < |bs| && i <= |ch| && |ch| > 0 && ch[0] < |bs| && (i > 0 ==> ch[i - 1] < |bs| && ch[i - 1] != n)
  {
    if i == 0 then AtHead(bs, n, ch[0]) else AfterPos(bs, n, ch[i - 1])
  }

  lemma PlaceChain(bs: seq<Binding>, n: nat, f: Name, ch: seq<nat>, end: Address, i: nat)
    requires ChainOk(bs, f, ch, end) && Placed(ch, n) && n < |bs| && bs[n].name == f && Fits(bs, ch, i, bs[n].priority)
    ensures i > 0 ==> ch[i - 1] != n
    ensures ChainOk(Place(bs, n, ch, i), f, Inserted(ch, i, n), end) && Placed(Inserted(ch, i, n), n + 1)
  {
    assert n !in ch;
    assert i > 0 ==> ch[i - 1] in ch;
    InsertOrdered(bs, ch, i, n);
    PlaceLinked(bs, n, f, ch, end, i);
    var bs', r := Place(bs, n, ch, i), Inserted(ch, i, n);
    SamePriorities(bs, bs', r);
    InsertPlaced(ch, i, n);
  }

  lemma PlaceLinked(bs: seq<Binding>, n: nat, f: Name, ch: seq<nat>, end: Address, i: nat)
    requires InRange(bs, ch) && Distinct(ch) && |ch| > 0 && i <= |ch| && Linked(bs, f, ch, end)
    requires n < |bs| && n !in ch && bs[n].name == f && (i > 0 ==> ch[i - 1] != n)
    ensures InRange(Place(bs, n, ch, i), Inserted(ch, i, n)) && Linked(Place(bs, n, ch, i), f, Inserted(ch, i, n), end)
  {
    if i == 0 { HeadLinked(bs, f, ch, end, n); } else { AfterLinked(bs, f, ch, end, n, i); }
  }

  lemma InsertPlaced(ch: seq<nat>, i: nat, n: nat)
    requires i <= |ch| && Placed(ch, n)
    ensures Placed(Inserted(ch, i, n), n + 1)
  {
    forall j: nat | j <= |ch| ensures Inserted(ch, i, n)[j] < n + 1 {
      assert j != i ==> Inserted(ch, i, n)[j] == ch[if j < i then j else j - 1];
    }
  }

  lemma SamePriorities(bs: seq<Binding>, bs': seq<Binding>, ch: seq<nat>)
    requires |bs'| == |bs| && (forall b: nat | b < |bs| :: bs'[b].priority == bs[b].priority)
    requires InRange(bs, ch) && Ordered(bs, ch)
    ensures InRange(bs', ch) && Ordered(bs', ch)
  {
    forall i: nat, j: nat | i < j < |ch| ensures Before(bs', ch[i], ch[j]) {
      assert Before(bs, ch[i], ch[j]);
    }
  }

  /** Placing the next binding keeps all chains. */
  lemma PlaceInserted(bs: seq<Binding>, n: nat, chains: map<Name, seq<nat>>, ends: map<Name, Address>, i: nat)
    requires ChainsOk(bs, n, chains, ends) && n < |bs| && bs[n].name in chains
    requires Fits(bs, chains[bs[n].name], i, bs[n].priority)
    ensures var ch := chains[bs[n].name];
            && (i > 0 ==> ch[i - 1] != n)
            && ChainsOk(Place(bs, n, ch, i), n + 1, chains[bs[n].name := Inserted(ch, i, n)], ends)
  {
    hide ChainOk, Inserted, Placed;
    var f := bs[n].name;
    var ch := chains[f];
    ChainFacts(bs, f, ch, ends[f]);
    PlaceChain(bs, n, f, ch, ends[f], i);
    var bs' := Place(bs, n, ch, i);
    var chains' := chains[f := Inserted(ch, i, n)];
    forall g | g in chains'
      ensures ChainOk(bs', g, chains'[g], ends[g]) && Placed(chains'[g], n + 1)
    {
      if g != f {
        OtherChain(bs, n, g, chains[g], ends[g], ch, i);
      }
    }
    PlaceRest(bs, n, ch, i);
    forall b: nat | b < n + 1
      ensures bs'[b].name in chains' && b in chains'[bs'[b].name]
    {
      InsertMembers(ch, i, n, b);
    }
  }

  lemma OtherChain(bs: seq<Binding>, n: nat, g: Name, other: seq<nat>, end: Address, ch: seq<nat>, i: nat)
    requires ChainOk(bs, g, other, end) && Placed(other, n) && n < |bs| && bs[n].name != g
    requires |ch| > 0 && i <= |ch| && InRange(bs, ch) && (forall j: nat | j < |ch| :: bs[ch[j]].name != g)
    requires i > 0 ==> ch[i - 1] != n
    ensures ChainOk(Place(bs, n, ch, i), g, other, end) && Placed(other, n + 1)
  {
    hide ChainOk;
    ChainFacts(bs, g, other, end);
    ChainUntouched(bs, Place(bs, n, ch, i), g, other, end);
  }

  lemma PlaceRest(bs: seq<Binding>, n: nat, ch: seq<nat>, i: nat)
    requires n < |bs| && |ch| > 0 && i <= |ch| && Placed(ch, n) && DistinctWrappers(bs)
    requires i > 0 ==> ch[i - 1] != n
    ensures var bs' := Place(bs, n, ch, i);
            && |bs'| == |bs| && DistinctWrappers(bs')
            && (forall b: nat | b < |bs| :: bs'[b].name == bs[b].name)
            && (forall b: nat | n < b < |bs| :: bs'[b] == bs[b])
  {
    var bs' := Place(bs, n, ch, i);
    assert forall b: nat | b < |bs| :: bs'[b].wrapper == bs[b].wrapper;
  }

  lemma InsertMembers(ch: seq<nat>, i: nat, n: nat, b: nat)
    requires i <= |ch|
    ensures b in Inserted(ch, i, n) <==> b in ch || b == n
  {
    assert ch == ch[..i] + ch[i..];
  }

  lemma ChainFacts(bs: seq<Binding>, f: Name, ch: seq<nat>, end: Address)
    requires ChainOk(bs, f, ch, end)
    ensures |ch| > 0 && InRange(bs, ch) && forall i: nat | i < |ch| :: bs[ch[i]].name == f
  {
  }

  /** The first binding of a name starts a chain. */
  lemma PlaceFirst(bs: seq<Binding>, n: nat, chains: map<Name, seq<nat>>, ends: map<Name, Address>)
    requires ChainsOk(bs, n, chains, ends) && n < |bs| && bs[n].name !in chains
    ensures ChainsOk(bs, n + 1, chains[bs[n].name := [n]], ends[bs[n].name := Unresolved])
  {
    hide ChainOk;
    var f := bs[n].name;
    assert ChainOk(bs, f, [n], Unresolved) by { OneLink(bs, f, n); }
  }

  lemma OneLink(bs: seq<Binding>, f: Name, n: nat)
    requires n < |bs| && bs[n].name == f && bs[n].next == None && bs[n].wrappee == Unresolved
    ensures ChainOk(bs, f, [n], Unresolved)
  {
  }

  /** Resolving the innermost binding of a chain. */
  lemma Resolve(bs: seq<Binding>, n: nat, chains: map<Name, seq<nat>>, ends: map<Name, Address>, f: Name, symbol: nat)
    requires ChainsOk(bs, n, chains, ends) && f in chains
    ensures var ch := chains[f];
            && |ch| > 0 && ch[|ch| - 1] < |bs|
            && ChainsOk(bs[ch[|ch| - 1] := bs[ch[|ch| - 1]].(wrappee := Original(symbol))], n, chains,
                        ends[f := Original(symbol)])
  {
    hide ChainOk;
    var ch := chains[f];
    ChainFacts(bs, f, ch, ends[f]);
    var last := ch[|ch| - 1];
    var bs' := bs[last := bs[last].(wrappee := Original(symbol))];
    ResolveChain(bs, f, ch, ends[f], symbol);
    forall g | g in chains && g != f
      ensures ChainOk(bs', g, chains[g], ends[g])
    {
      ChainFacts(bs, g, chains[g], ends[g]);
      ChainUntouched(bs, bs', g, chains[g], ends[g]);
    }
  }

  lemma ResolveChain(bs: seq<Binding>, f: Name, ch: seq<nat>, end: Address, symbol: nat)
    requires ChainOk(bs, f, ch, end)
    ensures var last := ch[|ch| - 1]; ChainOk(bs[last := bs[last].(wrappee := Original(symbol))], f, ch, Original(symbol))
  {
    var last := ch[|ch| - 1];
    var bs' := bs[last := bs[last].(wrappee := Original(symbol))];
    SamePriorities(bs, bs', ch);
    hide Ordered;
    forall i: nat | i < |ch|
      ensures bs'[ch[i]].name == f && bs'[ch[i]].next == (if i + 1 < |ch| then Some(ch[i + 1]) else None)
      ensures bs'[ch[i]].wrappee == (if i + 1 < |ch| then Wrapper(bs'[ch[i + 1]].wrapper) else Original(symbol))
    {
      assert i + 1 < |ch| ==> ch[i] != last && bs[ch[i]].wrappee == Wrapper(bs[ch[i + 1]].wrapper);
    }
  }

  // ----- Calls -----

  // The wrappers a call enters, one after the other, when it starts at an address.
  ghost predicate CallTrace(bs: seq<Binding>, start: Address, trace: seq<nat>, end: Address) {
    && InRange(bs, trace) && !end.Wrapper?
    && start == (if |trace| == 0 then end else Wrapper(bs[trace[0]].wrapper))
    && forall i: nat | i < |trace| ::
         bs[trace[i]].wrappee == if i + 1 < |trace| then Wrapper(bs[trace[i + 1]].wrapper) else end
  }

  lemma WrapperOwner(bs: seq<Binding>, a: nat, b: nat)
    requires DistinctWrappers(bs) && a < |bs| && b < |bs| && bs[a].wrapper == bs[b].wrapper
    ensures a == b
  {
  }

  /** A call visits each binding of the chain exactly once, by falling priority, and then the original
      function. There is no other way for it to go. */
  lemma CallVisitsChain(bs: seq<Binding>, n: nat, chains: map<Name, seq<nat>>, ends: map<Name, Address>,
                        f: Name, trace: seq<nat>, end: Address)
    requires ChainsOk(bs, n, chains, ends) && f in chains && |chains[f]| > 0 && chains[f][0] < |bs|
    ensures CallTrace(bs, Wrapper(bs[chains[f][0]].wrapper), chains[f], ends[f])
    ensures Distinct(chains[f]) && forall b: nat | b < n && bs[b].name == f :: b in chains[f]
    ensures CallTrace(bs, Wrapper(bs[chains[f][0]].wrapper), trace, end) ==> trace == chains[f] && end == ends[f]
  {
    var ch := chains[f];
    if CallTrace(bs, Wrapper(bs[ch[0]].wrapper), trace, end) {
      SameTrace(bs, ch, ends[f], trace, end, 0);
    }
  }

  lemma TraceAt(bs: seq<Binding>, t: seq<nat>, end: Address, i: nat)
    requires i < |t| && InRange(bs, t) && CallTrace(bs, Wrapper(bs[t[0]].wrapper), t, end)
    ensures bs[t[i]].wrappee == if i + 1 < |t| then Wrapper(bs[t[i + 1]].wrapper) else end
    ensures !end.Wrapper?
  {
  }

  lemma {:induction false} SameTrace(bs: seq<Binding>, x: seq<nat>, d: Address, y: seq<nat>, e: Address, i: nat)
    requires DistinctWrappers(bs) && |x| > 0 && |y| > 0 && i < |x| && i < |y| && x[..i] == y[..i]
    requires InRange(bs, x) && CallTrace(bs, Wrapper(bs[x[0]].wrapper), x, d)
    requires InRange(bs, y) && CallTrace(bs, Wrapper(bs[y[0]].wrapper), y, e)
    requires bs[x[i]].wrapper == bs[y[i]].wrapper
    ensures x == y && d == e
    decreases |x| - i
  {
    WrapperOwner(bs, x[i], y[i]);
    TraceAt(bs, x, d, i);
    TraceAt(bs, y, e, i);
    assert x[..i + 1] == x[..i] + [x[i]] && y[..i + 1] == y[..i] + [y[i]];
    if i + 1 < |x| {
      SameTrace(bs, x, d, y, e, i + 1);
    } else {
      assert x == x[..i + 1] && y == y[..i + 1];
    }
  }
}
