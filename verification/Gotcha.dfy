/** Wrapping functions at run time: binding calls of tools, symbol lookup, GOT updates by generation
    and libraries opened later. */
module Gotchas {

  import opened Common
  import opened WrapperChains

  ghost predicate HeadsOk(heads: map<Name, nat>, chains: map<Name, seq<nat>>) {
    heads.Keys == chains.Keys && forall f | f in heads :: |chains[f]| > 0 && heads[f] == chains[f][0]
  }

  /** Where calls of a function end: its own symbol once some library exports it. */
  function EndOf(f: Name, symbols: map<Name, nat>): Address {
    if f in symbols then Original(symbols[f]) else Unresolved
  }

  ghost predicate EndsOk(ends: map<Name, Address>, symbols: map<Name, nat>) {
    forall f | f in ends :: ends[f] == EndOf(f, symbols)
  }

  /** The functions to look up again are those that are wrapped and unresolved, each with some binding
      of its chain. */
  ghost predicate NotFoundOk(notFound: map<Name, nat>, chains: map<Name, seq<nat>>, ends: map<Name, Address>) {
    && (forall f | f in ends :: ends[f] == Unresolved <==> f in notFound)
    && (forall f | f in notFound :: f in chains && notFound[f] in chains[f])
  }

  ghost predicate HeadsInRange(heads: map<Name, nat>, bs: seq<Binding>) {
    forall f | f in heads :: heads[f] < |bs|
  }

  /** Every slot of a wrapped function enters at the head of its chain, unless it is yet to be updated. */
  ghost predicate SlotsOk(slots: seq<Slot>, bs: seq<Binding>, heads: map<Name, nat>, pending: set<Name>)
    requires HeadsInRange(heads, bs)
  {
    forall s: nat | s < |slots| && slots[s].name in heads && slots[s].name !in pending ::
      slots[s].target == Wrapper(bs[heads[slots[s].name]].wrapper)
  }

  ghost predicate LibraryOk(lib: Library, bs: seq<Binding>, heads: map<Name, nat>, pending: set<Name>)
    requires HeadsInRange(heads, bs)
  {
    !lib.filtered ==> SlotsOk(lib.slots, bs, heads, pending)
  }

  ghost predicate LibrariesOk(libs: seq<Library>, bs: seq<Binding>, heads: map<Name, nat>, pending: set<Name>, generation: nat)
    requires HeadsInRange(heads, bs)
  {
    forall l: nat | l < |libs| :: LibraryOk(libs[l], bs, heads, pending) && libs[l].generation <= generation
  }

  // ----- GOT updates -----

  function Rebind(slot: Slot, bs: seq<Binding>, table: map<Name, nat>): Slot
    requires HeadsInRange(table, bs)
  {
    if slot.name in table then slot.(target := Wrapper(bs[table[slot.name]].wrapper)) else slot
  }

  function Rebound(slots: seq<Slot>, bs: seq<Binding>, table: map<Name, nat>): (r: seq<Slot>)
    requires HeadsInRange(table, bs)
    ensures |r| == |slots| && forall i: nat | i < |r| :: r[i] == Rebind(slots[i], bs, table)
  {
    seq(|slots|, i requires 0 <= i < |slots| && HeadsInRange(table, bs) => Rebind(slots[i], bs, table))
  }

  /** Filtered libraries and those of the current generation are left alone. */
  function Updated(lib: Library, bs: seq<Binding>, table: map<Name, nat>, generation: nat): Library
    requires HeadsInRange(table, bs)
  {
    if lib.filtered || lib.generation == generation then lib
    else Library(lib.filtered, generation, Rebound(lib.slots, bs, table))
  }

  // ----- What is left alone -----

  /** Slots keep their names, and slots of functions that are not wrapped are as they were. */
  ghost predicate SlotsLeft(slots: seq<Slot>, slots': seq<Slot>, wrapped: set<Name>) {
    && |slots'| == |slots|
    && forall s: nat | s < |slots| :: slots'[s].name == slots[s].name && (slots[s].name !in wrapped ==> slots'[s] == slots[s])
  }

  /** So are filtered libraries. */
  ghost predicate LibraryLeft(lib: Library, lib': Library, wrapped: set<Name>) {
    lib'.filtered == lib.filtered && (lib.filtered ==> lib' == lib) && SlotsLeft(lib.slots, lib'.slots, wrapped)
  }

  ghost predicate LibrariesLeft(libs: seq<Library>, libs': seq<Library>, wrapped: set<Name>) {
    |libs'| == |libs| && forall l: nat | l < |libs| :: LibraryLeft(libs[l], libs'[l], wrapped)
  }

  lemma UpdateLeaves(lib: Library, bs: seq<Binding>, table: map<Name, nat>, generation: nat, wrapped: set<Name>)
    requires HeadsInRange(table, bs) && table.Keys <= wrapped
    ensures LibraryLeft(lib, Updated(lib, bs, table, generation), wrapped)
  {
    hide HeadsInRange;
  }

  lemma LeftAlone(libs: seq<Library>, wrapped: set<Name>)
    ensures LibrariesLeft(libs, libs, wrapped)
  {
  }

  lemma LeftTwice(libs: seq<Library>, libs': seq<Library>, libs'': seq<Library>, few: set<Name>, wrapped: set<Name>)
    requires LibrariesLeft(libs, libs', few) && LibrariesLeft(libs', libs'', wrapped) && few <= wrapped
    ensures LibrariesLeft(libs, libs'', wrapped)
  {
    forall l: nat | l < |libs| ensures LibraryLeft(libs[l], libs''[l], wrapped) {
      assert LibraryLeft(libs[l], libs'[l], few) && LibraryLeft(libs'[l], libs''[l], wrapped);
    }
  }

  lemma LeftWithMore(libs: seq<Library>, libs': seq<Library>, more: seq<Library>, wrapped: set<Name>)
    requires LibrariesLeft(libs, libs', wrapped)
    ensures LibrariesLeft(libs + more, libs' + more, wrapped)
  {
    hide LibraryLeft;
    LeftAlone(more, wrapped);
    forall l: nat | l < |libs + more| ensures LibraryLeft((libs + more)[l], (libs' + more)[l], wrapped) {
      if l >= |libs| { assert LibraryLeft(more[l - |libs|], more[l - |libs|], wrapped); }
    }
  }

  /** The functions of a wrap call. */
  function NamesOf(functions: seq<(Name, nat)>, n: nat): set<Name>
    requires n <= |functions|
  {
    set i | 0 <= i < n :: functions[i].0
  }

  lemma NamesMore(functions: seq<(Name, nat)>, n: nat)
    requires n < |functions|
    ensures NamesOf(functions, n + 1) == NamesOf(functions, n) + {functions[n].0}
  {
    assert functions[n].0 in NamesOf(functions, n + 1);
  }

  // One function more is counted if it was neither wrapped nor exported.
  lemma MissingMore(names: set<Name>, heads: set<Name>, symbols: set<Name>, f: Name)
    ensures |names + {f} - heads - symbols| == |names - heads - symbols| + if f !in heads + names && f !in symbols then 1 else 0
  {
    if f !in heads + names && f !in symbols {
      assert names + {f} - heads - symbols == (names - heads - symbols) + {f};
    } else {
      assert names + {f} - heads - symbols == names - heads - symbols;
    }
  }

  /** An update with the new heads brings a library of an earlier generation up to date. */
  lemma UpdatedByNew(lib: Library, bs: seq<Binding>, heads: map<Name, nat>, table: map<Name, nat>, generation: nat)
    requires HeadsInRange(heads, bs) && HeadsInRange(table, bs)
    requires LibraryOk(lib, bs, heads, table.Keys) && lib.generation < generation
    requires forall f | f in table :: f in heads && table[f] == heads[f]
    ensures LibraryOk(Updated(lib, bs, table, generation), bs, heads, {}) && Updated(lib, bs, table, generation).generation <= generation
  {
  }

  /** An update with all heads brings any library up to date. */
  lemma UpdatedByAll(lib: Library, bs: seq<Binding>, heads: map<Name, nat>, generation: nat)
    requires HeadsInRange(heads, bs) && lib.generation <= generation
    requires lib.generation == generation ==> LibraryOk(lib, bs, heads, {})
    ensures LibraryOk(Updated(lib, bs, heads, generation), bs, heads, {})
    ensures Updated(lib, bs, heads, generation).generation <= generation
  {
  }

  /** Only names, priorities and wrappers matter for the slots. */
  ghost predicate SameWrappers(bs: seq<Binding>, bs': seq<Binding>) {
    && |bs| <= |bs'|
    && forall b: nat | b < |bs| :: bs'[b].wrapper == bs[b].wrapper && bs'[b].name == bs[b].name && bs'[b].priority == bs[b].priority
  }

  lemma LibrariesKept(libs: seq<Library>, bs: seq<Binding>, bs': seq<Binding>, heads: map<Name, nat>, heads': map<Name, nat>,
                      pending: set<Name>, pending': set<Name>, generation: nat)
    requires HeadsInRange(heads, bs) && HeadsInRange(heads', bs') && SameWrappers(bs, bs')
    requires pending <= pending' && LibrariesOk(libs, bs, heads, pending, generation)
    requires forall f | f in heads' && f !in pending' :: f in heads && heads'[f] == heads[f]
    ensures LibrariesOk(libs, bs', heads', pending', generation)
  {
    forall l: nat | l < |libs| ensures LibraryOk(libs[l], bs', heads', pending') {
      assert LibraryOk(libs[l], bs, heads, pending);
    }
  }

  class Gotcha {
    var bindings: seq<Binding>
    var heads: map<Name, nat>
    var notFound: map<Name, nat>
    var libraries: seq<Library>
    var generation: nat
    // The symbols the loaded libraries export.
    var symbols: map<Name, nat>

    ghost var placed: nat
    ghost var chains: map<Name, seq<nat>>
    ghost var ends: map<Name, Address>

    ghost predicate Linkage()
      reads this
    {
      ChainsOk(bindings, placed, chains, ends) && HeadsOk(heads, chains) && HeadsInRange(heads, bindings)
    }

    ghost predicate Valid()
      reads this
    {
      && Linkage() && placed == |bindings|
      && EndsOk(ends, symbols) && NotFoundOk(notFound, chains, ends)
      && LibrariesOk(libraries, bindings, heads, {}, generation)
      && (generation == 0 ==> heads == map[])
    }

    // While a wrap call places its bindings, the slots of these functions may be out of date.
    ghost predicate Placing(news: map<Name, nat>)
      reads this
    {
      && Linkage() && EndsOk(ends, symbols) && NotFoundOk(notFound, chains, ends)
      && LibrariesOk(libraries, bindings, heads, news.Keys, generation)
      && forall f | f in news :: f in heads && news[f] == heads[f]
    }

    constructor (libs: seq<Library>, symbols: map<Name, nat>)
      requires forall l: nat | l < |libs| :: libs[l].generation == 0
      ensures Valid() && libraries == libs && this.symbols == symbols && bindings == [] && heads == map[]
    {
      bindings, heads, notFound, libraries, generation := [], map[], map[], libs, 0;
      this.symbols := symbols;
      placed, chains, ends := 0, map[], map[];
    }

    lemma ChainAt(f: Name, i: nat)
      requires ChainsOk(bindings, placed, chains, ends) && f in chains && i < |chains[f]|
      ensures chains[f][i] < placed <= |bindings| && bindings[chains[f][i]].name == f
      ensures bindings[chains[f][i]].next == (if i + 1 < |chains[f]| then Some(chains[f][i + 1]) else None)
    {
      hide Ordered, Distinct;
      assert ChainOk(bindings, f, chains[f], ends[f]) && Placed(chains[f], placed);
    }

    lemma PrioritiesFall(f: Name, i: nat)
      requires ChainsOk(bindings, placed, chains, ends) && f in chains && i < |chains[f]|
      ensures InRange(bindings, chains[f])
      ensures forall j: nat | j <= i :: bindings[chains[f][j]].priority >= bindings[chains[f][i]].priority
      ensures forall j: nat | i <= j < |chains[f]| :: bindings[chains[f][j]].priority <= bindings[chains[f][i]].priority
    {
      assert ChainOk(bindings, f, chains[f], ends[f]);
      forall j: nat | j < |chains[f]| && j != i
        ensures j < i ==> bindings[chains[f][j]].priority >= bindings[chains[f][i]].priority
        ensures j > i ==> bindings[chains[f][j]].priority <= bindings[chains[f][i]].priority
      {
        if j < i {
          assert Before(bindings, chains[f][j], chains[f][i]);
        } else {
          assert Before(bindings, chains[f][i], chains[f][j]);
        }
      }
    }

    /** Walks down the chain to the last binding of at least the given priority. */
    method FindPosition(f: Name, priority: int) returns (cur: nat, ghost i: nat)
      requires Linkage() && f in heads && bindings[heads[f]].priority >= priority
      ensures 0 < i <= |chains[f]| && cur == chains[f][i - 1] && InRange(bindings, chains[f])
      ensures Fits(bindings, chains[f], i, priority)
    {
      hide ChainsOk;
      cur, i := heads[f], 1;
      ChainAt(f, 0);
      if 1 < |chains[f]| { ChainAt(f, 1); }
      while bindings[cur].next.Some? && bindings[bindings[cur].next.value].priority >= priority
        invariant 0 < i <= |chains[f]| && cur == chains[f][i - 1] && cur < |bindings|
        invariant bindings[cur].priority >= priority
        invariant bindings[cur].next == (if i < |chains[f]| then Some(chains[f][i]) else None)
        invariant bindings[cur].next.Some? ==> bindings[cur].next.value < |bindings|
        decreases |chains[f]| - i
      {
        cur, i := bindings[cur].next.value, i + 1;
        ChainAt(f, i - 1);
        if i < |chains[f]| { ChainAt(f, i); }
      }
      PrioritiesFall(f, i - 1);
      if i < |chains[f]| { PrioritiesFall(f, i); }
    }

    lemma HeadFits(f: Name, priority: int)
      requires ChainsOk(bindings, placed, chains, ends) && f in chains && |chains[f]| > 0
      requires chains[f][0] < |bindings| && bindings[chains[f][0]].priority < priority
      ensures InRange(bindings, chains[f]) && Fits(bindings, chains[f], 0, priority)
    {
      hide ChainsOk;
      PrioritiesFall(f, 0);
    }

    lemma PlaceFacts(n: nat, i: nat)
      requires ChainsOk(bindings, placed, chains, ends) && n == placed < |bindings| && bindings[n].name in chains
      requires var ch := chains[bindings[n].name]; InRange(bindings, ch) && Fits(bindings, ch, i, bindings[n].priority)
      ensures var ch := chains[bindings[n].name];
              && |ch| > 0 && i <= |ch| && (i > 0 ==> ch[i - 1] != n)
              && ChainsOk(Place(bindings, n, ch, i), n + 1, chains[bindings[n].name := Inserted(ch, i, n)], ends)
    {
      hide ChainOk, Placed, Place, Inserted, DistinctWrappers;
      var f := bindings[n].name;
      ChainFacts(bindings, f, chains[f], ends[f]);
      PlaceInserted(bindings, n, chains, ends, i);
    }

    /** The new binding becomes the head and calls on to the old head's wrapper. */
    method InsertAtHead(n: nat, f: Name)
      requires Linkage() && n == placed < |bindings| && f in heads && f == bindings[n].name
      requires bindings[heads[f]].priority < bindings[n].priority
      modifies `bindings, `heads, `placed, `chains
      ensures Linkage() && placed == n + 1 && SameWrappers(old(bindings), bindings) && |bindings| == |old(bindings)|
      ensures heads == old(heads)[f := n] && chains.Keys == old(chains).Keys
      ensures forall g | g in old(chains) :: forall b | b in old(chains[g]) :: b in chains[g]
    {
      hide ChainsOk, Fits, Inserted;
      ghost var ch := chains[f];
      HeadFits(f, bindings[n].priority);
      PlaceFacts(n, 0);
      InsertFacts(ch, 0, n);
      chains, placed := chains[f := Inserted(ch, 0, n)], n + 1;
      bindings := bindings[n := bindings[n].(next := Some(heads[f]), wrappee := Wrapper(bindings[heads[f]].wrapper))];
      heads := heads[f := n];
    }

    /** The new binding takes over what cur calls on to, and cur calls on to the new binding. */
    method InsertAfterPos(n: nat, f: Name, cur: nat, ghost i: nat)
      requires Linkage() && n == placed < |bindings| && f in heads && f == bindings[n].name
      requires 0 < i <= |chains[f]| && cur == chains[f][i - 1] && InRange(bindings, chains[f])
      requires Fits(bindings, chains[f], i, bindings[n].priority)
      modifies `bindings, `placed, `chains
      ensures Linkage() && placed == n + 1 && SameWrappers(old(bindings), bindings) && |bindings| == |old(bindings)|
      ensures chains.Keys == old(chains).Keys
      ensures forall g | g in old(chains) :: forall b | b in old(chains[g]) :: b in chains[g]
    {
      hide ChainsOk, Fits, Inserted;
      ghost var ch := chains[f];
      PlaceFacts(n, i);
      InsertFacts(ch, i, n);
      chains, placed := chains[f := Inserted(ch, i, n)], n + 1;
      bindings := bindings[n := bindings[n].(next := bindings[cur].next, wrappee := bindings[cur].wrappee)]
        [cur := bindings[cur].(next := Some(n), wrappee := Wrapper(bindings[n].wrapper))];
    }

    static lemma InsertFacts(ch: seq<nat>, i: nat, n: nat)
      requires i <= |ch|
      ensures |Inserted(ch, i, n)| > 0 && Inserted(ch, i, n)[0] == (if i == 0 then n else ch[0])
      ensures forall b | b in ch :: b in Inserted(ch, i, n)
    {
      forall b | b in ch ensures b in Inserted(ch, i, n) { InsertMembers(ch, i, n, b); }
    }

    /** Puts the next binding into the chain of its function. A new function needs a symbol lookup; a
        new function or a new head needs the GOT slots to be updated. Wrappers are distinct, so none is
        found to be in the chain already. */
    method RewriteWrapperOrders(n: nat) returns (lookup: bool, bind: bool)
      requires Linkage() && n == placed < |bindings|
      modifies `bindings, `heads, `placed, `chains, `ends
      ensures Linkage() && placed == n + 1 && SameWrappers(old(bindings), bindings) && |bindings| == |old(bindings)|
      ensures bindings[n].name == old(bindings[n].name)
      ensures lookup == (bindings[n].name !in old(heads)) && (lookup ==> bind)
      ensures heads == if bind then old(heads)[bindings[n].name := n] else old(heads)
      ensures ends == if lookup then old(ends)[bindings[n].name := Unresolved] else old(ends)
      ensures Grown(old(chains), chains)
      ensures lookup ==> bindings[n].name in chains && chains[bindings[n].name] == [n]
    {
      hide ChainsOk, Fits, Inserted;
      var f := bindings[n].name;
      lookup, bind := false, false;
      if f !in heads {
        PlaceFirst(bindings, n, chains, ends);
        heads := heads[f := n];
        chains, ends, placed := chains[f := [n]], ends[f := Unresolved], n + 1;
        lookup, bind := true, true;
      } else if bindings[heads[f]].priority < bindings[n].priority {
        InsertAtHead(n, f);
        bind := true;
      } else {
        ghost var i: nat;
        var cur: nat;
        cur, i := FindPosition(f, bindings[n].priority);
        InsertAfterPos(n, f, cur, i);
      }
    }

    /** Looks the function up in the loaded libraries and lets its innermost binding call it. */
    method PrepareSymbol(f: Name, b: nat) returns (found: bool)
      requires Linkage() && f in chains && |chains[f]| > 0 && b == chains[f][|chains[f]| - 1] < |bindings|
      modifies `bindings, `ends
      ensures Linkage() && SameWrappers(old(bindings), bindings) && |bindings| == |old(bindings)|
      ensures found == (f in symbols)
      ensures ends == if found then old(ends)[f := Original(symbols[f])] else old(ends)
    {
      hide ChainsOk;
      found := f in symbols;
      if found {
        Resolve(bindings, placed, chains, ends, f, symbols[f]);
        bindings := bindings[b := bindings[b].(wrappee := Original(symbols[f]))];
        ends := ends[f := Original(symbols[f])];
      }
    }

    /** A function wrapped for the first time is resolved or noted as not found. */
    method ResolveNew(n: nat, f: Name, ghost had: map<Name, seq<nat>>, ghost were: map<Name, Address>) returns (missing: bool)
      requires Linkage() && f !in had && f in chains && chains[f] == [n] && n < |bindings|
      requires had.Keys == were.Keys && EndsOk(were, symbols) && NotFoundOk(notFound, had, were)
      requires ends == were[f := Unresolved] && Grown(had, chains)
      modifies `bindings, `ends, `notFound
      ensures Linkage() && SameWrappers(old(bindings), bindings) && |bindings| == |old(bindings)|
      ensures EndsOk(ends, symbols) && NotFoundOk(notFound, chains, ends) && missing == (f !in symbols)
    {
      hide ChainsOk, HeadsOk, SameWrappers;
      var found := PrepareSymbol(f, n);
      missing := !found;
      assert f !in notFound;
      if missing { notFound := notFound[f := n]; }
    }

    static ghost predicate Grown(had: map<Name, seq<nat>>, chains: map<Name, seq<nat>>) {
      forall f | f in had :: f in chains && forall b | b in had[f] :: b in chains[f]
    }

    /** After placing a binding: a lookup if its function needs one. */
    method LookUp(n: nat, f: Name, lookup: bool, ghost had: map<Name, seq<nat>>, ghost were: map<Name, Address>) returns (missing: bool)
      requires Linkage() && Grown(had, chains) && n < |bindings|
      requires had.Keys == were.Keys && EndsOk(were, symbols) && NotFoundOk(notFound, had, were)
      requires ends == if lookup then were[f := Unresolved] else were
      requires lookup ==> f !in had && f in chains && chains[f] == [n]
      modifies `bindings, `ends, `notFound
      ensures Linkage() && SameWrappers(old(bindings), bindings) && |bindings| == |old(bindings)|
      ensures EndsOk(ends, symbols) && NotFoundOk(notFound, chains, ends) && missing == (lookup && f !in symbols)
    {
      hide Linkage, EndsOk, NotFoundOk, SameWrappers, Grown;
      missing := false;
      if lookup {
        missing := ResolveNew(n, f, had, were);
      } else {
        NotFoundKept(notFound, had, chains, ends);
        WrappersItself(bindings);
      }
    }

    /** One binding of a wrap call: into its chain, resolved or noted as not found, and noted for the
        GOT updates if it is a head now. */
    method WrapOne(n: nat, news: map<Name, nat>) returns (news': map<Name, nat>, missing: bool)
      requires Placing(news) && n == placed < |bindings|
      modifies `bindings, `heads, `placed, `chains, `ends, `notFound
      ensures Placing(news') && placed == n + 1
      ensures SameWrappers(old(bindings), bindings) && |bindings| == |old(bindings)|
      ensures missing == old(bindings[n].name !in heads && bindings[n].name !in symbols)
      ensures heads.Keys == old(heads.Keys) + {old(bindings[n].name)}
    {
      hide ChainsOk, LibrariesOk, HeadsOk, EndsOk, NotFoundOk, SameWrappers, Grown;
      var f := bindings[n].name;
      ghost var had, were := chains, ends;
      SameKeys();
      var lookup, bind := RewriteWrapperOrders(n);
      ghost var bs := bindings;
      missing := LookUp(n, f, lookup, had, were);
      WrappersTransitive(old(bindings), bs, bindings);
      news' := if bind then news[f := n] else news;
      LibrariesKept(libraries, old(bindings), bindings, old(heads), heads, news.Keys, news'.Keys, generation);
    }

    lemma SameKeys()
      requires ChainsOk(bindings, placed, chains, ends) && HeadsOk(heads, chains)
      ensures chains.Keys == ends.Keys == heads.Keys
    {
    }

    static lemma NotFoundKept(notFound: map<Name, nat>, had: map<Name, seq<nat>>, chains: map<Name, seq<nat>>, ends: map<Name, Address>)
      requires NotFoundOk(notFound, had, ends) && Grown(had, chains)
      ensures NotFoundOk(notFound, chains, ends)
    {
    }

    // ----- GOT slots -----

    method UpdateLibraryGot(l: nat, table: map<Name, nat>)
      requires l < |libraries| && HeadsInRange(table, bindings)
      modifies `libraries
      ensures libraries == old(libraries)[l := Updated(old(libraries[l]), bindings, table, generation)]
      ensures LibraryLeft(old(libraries[l]), libraries[l], table.Keys)
      ensures !old(libraries[l].filtered) && old(libraries[l].generation) != generation ==>
                forall s: nat | s < |libraries[l].slots| && libraries[l].slots[s].name in table ::
                  libraries[l].slots[s].target == Wrapper(bindings[table[libraries[l].slots[s].name]].wrapper)
    {
      var lib := libraries[l];
      if lib.filtered || lib.generation == generation {
        assert libraries == libraries[l := lib];
        return;
      }
      var slots := lib.slots;
      for s := 0 to |slots|
        invariant |slots| == |lib.slots|
        invariant forall i: nat | i < s :: slots[i] == Rebind(lib.slots[i], bindings, table)
        invariant forall i: nat | s <= i < |slots| :: slots[i] == lib.slots[i]
      {
        if slots[s].name in table {
          slots := slots[s := slots[s].(target := Wrapper(bindings[table[slots[s].name]].wrapper))];
        }
      }
      assert slots == Rebound(lib.slots, bindings, table);
      libraries := libraries[l := Library(lib.filtered, generation, slots)];
    }

    method UpdateAllLibraryGots(table: map<Name, nat>)
      requires HeadsInRange(table, bindings)
      modifies `libraries
      ensures |libraries| == |old(libraries)|
      ensures forall l: nat | l < |libraries| :: libraries[l] == Updated(old(libraries[l]), bindings, table, generation)
    {
      hide Updated;
      for l := 0 to |libraries|
        invariant |libraries| == |old(libraries)|
        invariant forall i: nat | i < l :: libraries[i] == Updated(old(libraries[i]), bindings, table, generation)
        invariant forall i: nat | l <= i < |libraries| :: libraries[i] == old(libraries[i])
      {
        UpdateLibraryGot(l, table);
      }
    }

    // ----- Wrapping -----

    static function NewBindings(functions: seq<(Name, nat)>, priority: int): seq<Binding> {
      seq(|functions|, i requires 0 <= i < |functions| =>
        Binding(functions[i].0, priority, functions[i].1, None, Unresolved))
    }

    /** The bindings of a wrap call before they are placed. */
    method AddBindings(functions: seq<(Name, nat)>, priority: int)
      requires Valid() && DistinctWrappers(bindings + NewBindings(functions, priority))
      modifies `bindings, `generation
      ensures bindings == old(bindings) + NewBindings(functions, priority) && generation == old(generation) + 1
      ensures Placing(map[]) && placed == |old(bindings)|
      ensures forall l: nat | l < |libraries| :: libraries[l].generation < generation
    {
      hide LibraryOk, ChainOk, DistinctWrappers;
      ghost var none: map<Name, nat> := map[];
      assert none.Keys == {};
      generation := generation + 1;
      forall f | f in chains ensures ChainOk(bindings + NewBindings(functions, priority), f, chains[f], ends[f]) {
        ChainExtended(bindings, NewBindings(functions, priority), f, chains[f], ends[f]);
      }
      bindings := bindings + NewBindings(functions, priority);
      LibrariesKept(libraries, old(bindings), bindings, heads, heads, {}, {}, old(generation));
    }

    static lemma ChainExtended(bs: seq<Binding>, more: seq<Binding>, f: Name, ch: seq<nat>, end: Address)
      requires ChainOk(bs, f, ch, end)
      ensures ChainOk(bs + more, f, ch, end)
    {
      ChainUntouched(bs, bs + more, f, ch, end);
    }

    /** A tool wraps functions: every binding goes into the chain of its function, and the slots of all
        functions with a new head are updated in every library. Reports how many functions no library
        exports yet. */
    method Wrap(functions: seq<(Name, nat)>, priority: int) returns (missing: nat)
      requires Valid() && DistinctWrappers(bindings + NewBindings(functions, priority))
      modifies this
      ensures Valid() && symbols == old(symbols) && LibrariesLeft(old(libraries), libraries, heads.Keys)
      ensures SameWrappers(old(bindings) + NewBindings(functions, priority), bindings)
      ensures |bindings| == |old(bindings)| + |functions|
      ensures heads.Keys == old(heads.Keys) + NamesOf(functions, |functions|)
      ensures missing == |NamesOf(functions, |functions|) - old(heads.Keys) - symbols.Keys|
    {
      hide Valid, Placing, SameWrappers, NamesOf, LibrariesLeft, DistinctWrappers, HasNames, NewBindings;
      AddBindings(functions, priority);
      NewNames(old(bindings), functions, priority);
      var news: map<Name, nat>;
      news, missing := PlaceAll(functions, |bindings| - |functions|);
      FinishWrap(news);
    }

    /** All bindings of the call, which are the last ones. */
    method PlaceAll(functions: seq<(Name, nat)>, n: nat) returns (news: map<Name, nat>, missing: nat)
      requires Placing(map[]) && n == placed && |bindings| == n + |functions| && HasNames(bindings, n, functions)
      modifies `bindings, `heads, `placed, `chains, `ends, `notFound
      ensures Placing(news) && placed == |bindings| == |old(bindings)| && SameWrappers(old(bindings), bindings)
      ensures heads.Keys == old(heads.Keys) + NamesOf(functions, |functions|)
      ensures missing == |NamesOf(functions, |functions|) - old(heads.Keys) - symbols.Keys|
    {
      hide Placing, SameWrappers, HasNames, NamesOf, Counted;
      ghost var made := bindings;
      WrappersItself(made);
      news, missing := map[], 0;
      NoneCounted(functions, heads.Keys, symbols.Keys);
      for i := 0 to |functions|
        invariant Placing(news) && placed == n + i && |bindings| == n + |functions| && SameWrappers(made, bindings)
        invariant Counted(functions, i, old(heads.Keys), symbols.Keys, heads.Keys, missing)
      {
        ghost var were, had := bindings, heads.Keys;
        NameKept(made, bindings, n, functions, i);
        var absent: bool;
        news, absent := WrapOne(n + i, news);
        WrappersTransitive(made, were, bindings);
        CountedMore(functions, i, old(heads.Keys), symbols.Keys, had, missing);
        if absent { missing := missing + 1; }
      }
      CountedAll(functions, old(heads.Keys), symbols.Keys, heads.Keys, missing);
    }

    static ghost predicate HasNames(bs: seq<Binding>, n: nat, functions: seq<(Name, nat)>) {
      |bs| == n + |functions| && forall i: nat | i < |functions| :: bs[n + i].name == functions[i].0
    }

    static lemma NameKept(bs: seq<Binding>, bs': seq<Binding>, n: nat, functions: seq<(Name, nat)>, i: nat)
      requires HasNames(bs, n, functions) && SameWrappers(bs, bs') && |bs'| == |bs| && i < |functions|
      ensures bs'[n + i].name == functions[i].0
    {
    }

    static lemma NewNames(bs: seq<Binding>, functions: seq<(Name, nat)>, priority: int)
      ensures HasNames(bs + NewBindings(functions, priority), |bs|, functions)
    {
    }

    // So far, the heads are the old ones and the names, and so many of the names were new and not exported.
    static ghost predicate Counted(functions: seq<(Name, nat)>, i: nat, before: set<Name>, symbols: set<Name>, now: set<Name>, missing: nat)
      requires i <= |functions|
    {
      now == before + NamesOf(functions, i) && missing == |NamesOf(functions, i) - before - symbols|
    }

    static lemma NoneCounted(functions: seq<(Name, nat)>, before: set<Name>, symbols: set<Name>)
      ensures Counted(functions, 0, before, symbols, before, 0)
    {
      assert NamesOf(functions, 0) == {};
    }

    static lemma CountedMore(functions: seq<(Name, nat)>, i: nat, before: set<Name>, symbols: set<Name>, now: set<Name>, missing: nat)
      requires i < |functions| && Counted(functions, i, before, symbols, now, missing)
      ensures var f := functions[i].0;
              Counted(functions, i + 1, before, symbols, now + {f}, missing + if f !in now && f !in symbols then 1 else 0)
    {
      hide NamesOf;
      NamesMore(functions, i);
      MissingMore(NamesOf(functions, i), before, symbols, functions[i].0);
    }

    static lemma CountedAll(functions: seq<(Name, nat)>, before: set<Name>, symbols: set<Name>, now: set<Name>, missing: nat)
      requires Counted(functions, |functions|, before, symbols, now, missing)
      ensures now == before + NamesOf(functions, |functions|) && missing == |NamesOf(functions, |functions|) - before - symbols|
    {
    }

    method FinishWrap(news: map<Name, nat>)
      requires Placing(news) && placed == |bindings| && generation > 0
      requires forall l: nat | l < |libraries| :: libraries[l].generation < generation
      modifies `libraries
      ensures Valid() && LibrariesLeft(old(libraries), libraries, heads.Keys)
    {
      hide ChainsOk, Updated, LibraryOk, HeadsOk, LibraryLeft;
      LeftAlone(libraries, heads.Keys);
      if news != map[] {
        ghost var libs := libraries;
        UpdateAllLibraryGots(news);
        forall l: nat | l < |libraries|
          ensures LibraryOk(libraries[l], bindings, heads, {}) && libraries[l].generation <= generation
        {
          UpdatedByNew(libs[l], bindings, heads, news, generation);
        }
        forall l: nat | l < |libraries| ensures LibraryLeft(libs[l], libraries[l], heads.Keys) {
          UpdateLeaves(libs[l], bindings, news, generation, heads.Keys);
        }
      } else {
        assert news.Keys == {};
      }
    }

    // ----- Libraries opened later -----

    /** Walks to the innermost binding of the chain. */
    method FindInnermost(f: Name, start: nat) returns (b: nat)
      requires Linkage() && f in chains && start in chains[f]
      ensures |chains[f]| > 0 && b == chains[f][|chains[f]| - 1] < |bindings|
    {
      hide ChainsOk;
      b := start;
      ghost var i: nat :| i < |chains[f]| && chains[f][i] == start;
      ChainAt(f, i);
      while bindings[b].next.Some?
        invariant i < |chains[f]| && chains[f][i] == b < |bindings|
        invariant bindings[b].next == (if i + 1 < |chains[f]| then Some(chains[f][i + 1]) else None)
        decreases |chains[f]| - i
      {
        b, i := bindings[b].next.value, i + 1;
        ChainAt(f, i);
      }
    }

    /** Looks a function up again; a found one is no longer missing. */
    method PerBinding(f: Name)
      requires Linkage() && f in notFound && NotFoundOk(notFound, chains, ends)
      modifies `bindings, `ends, `notFound
      ensures Linkage() && NotFoundOk(notFound, chains, ends)
      ensures SameWrappers(old(bindings), bindings) && |bindings| == |old(bindings)|
      ensures ends == if f in symbols then old(ends)[f := Original(symbols[f])] else old(ends)
      ensures f in old(ends) && forall g | g in old(notFound) && g != f :: g in notFound
      ensures f !in symbols ==> old(ends[f]) == Unresolved
    {
      hide ChainsOk, HeadsOk, SameWrappers;
      SameKeys();
      var b := FindInnermost(f, notFound[f]);
      var found := PrepareSymbol(f, b);
      if found { notFound := notFound - {f}; }
    }

    method RetryMissing(ghost before: map<Name, nat>)
      requires Linkage() && EndsOk(ends, before) && NotFoundOk(notFound, chains, ends)
      requires forall f | f in before :: f in symbols && symbols[f] == before[f]
      modifies `bindings, `ends, `notFound
      ensures Linkage() && EndsOk(ends, symbols) && NotFoundOk(notFound, chains, ends)
      ensures SameWrappers(old(bindings), bindings) && |bindings| == |old(bindings)|
    {
      hide ChainsOk, HeadsOk, NotFoundOk, SameWrappers, HeadsInRange;
      var todo := notFound.Keys;
      assert Retried(ends, todo, symbols) by { NoRetries(before); }
      assert SameWrappers(old(bindings), bindings) by { WrappersItself(bindings); }
      while todo != {}
        invariant Linkage() && NotFoundOk(notFound, chains, ends) && todo <= notFound.Keys
        invariant SameWrappers(old(bindings), bindings) && |bindings| == |old(bindings)|
        invariant Retried(ends, todo, symbols)
        decreases |todo|
      {
        var f :| f in todo;
        ghost var bs := bindings;
        PerBinding(f);
        WrappersTransitive(old(bindings), bs, bindings);
        todo := todo - {f};
      }
    }

    static ghost predicate Retried(ends: map<Name, Address>, todo: set<Name>, symbols: map<Name, nat>) {
      forall f | f in ends && f !in todo :: ends[f] == EndOf(f, symbols)
    }

    lemma NoRetries(before: map<Name, nat>)
      requires EndsOk(ends, before) && NotFoundOk(notFound, chains, ends)
      requires forall f | f in before :: f in symbols && symbols[f] == before[f]
      ensures Retried(ends, notFound.Keys, symbols)
    {
    }

    static lemma WrappersItself(bs: seq<Binding>)
      ensures SameWrappers(bs, bs)
    {
    }

    static lemma WrappersTransitive(bs: seq<Binding>, cs: seq<Binding>, ds: seq<Binding>)
      requires SameWrappers(bs, cs) && SameWrappers(cs, ds)
      ensures SameWrappers(bs, ds)
    {
    }

    /** A library is opened, with the libraries it brings in: missing functions are looked up again, and
        all slots of libraries that are not up to date are updated from all chains. */
    method Dlopen(added: seq<Library>, exports: map<Name, nat>)
      requires Valid() && forall l: nat | l < |added| :: added[l].generation == 0
      modifies this
      ensures Valid() && symbols == exports + old(symbols)
      ensures SameWrappers(old(bindings), bindings) && |bindings| == |old(bindings)|
      ensures heads == old(heads) && LibrariesLeft(old(libraries) + added, libraries, heads.Keys)
    {
      hide ChainsOk, HeadsOk, LibraryOk, Updated, NotFoundOk, EndsOk, LibraryLeft;
      symbols := exports + symbols;
      RetryMissing(old(symbols));
      LibrariesKept(libraries, old(bindings), bindings, heads, heads, {}, {}, generation);
      ghost var libs := libraries;
      NoneWrapped(added);
      libraries := libraries + added;
      UpdateAllLibraryGots(heads);
      forall l: nat | l < |libraries|
        ensures LibraryOk(libraries[l], bindings, heads, {}) && libraries[l].generation <= generation
      {
        UpdatedByAll((libs + added)[l], bindings, heads, generation);
      }
      forall l: nat | l < |libraries| ensures LibraryLeft((libs + added)[l], libraries[l], heads.Keys) {
        UpdateLeaves((libs + added)[l], bindings, heads, generation, heads.Keys);
      }
    }

    /** Before the first wrap call no function is wrapped, so any library is up to date. */
    lemma NoneWrapped(added: seq<Library>)
      requires HeadsInRange(heads, bindings) && (generation == 0 ==> heads == map[])
      ensures generation == 0 ==> forall l: nat | l < |added| :: LibraryOk(added[l], bindings, heads, {})
    {
    }

    // ----- Calls -----

    /** A call through any slot of a wrapped function visits every binding of that function exactly
        once, by falling priority and among equal ones in the order of wrapping, and ends at the
        function's own symbol, if it has one. */
    lemma CallThroughSlot(l: nat, s: nat, trace: seq<nat>, end: Address)
      requires Valid() && l < |libraries| && s < |libraries[l].slots| && !libraries[l].filtered
      requires libraries[l].slots[s].name in heads
      ensures var f := libraries[l].slots[s].name;
              && f in chains && InRange(bindings, chains[f]) && Distinct(chains[f])
              && (forall i: nat, j: nat | i < j < |chains[f]| ::
                    var a, b := bindings[chains[f][i]], bindings[chains[f][j]];
                    a.priority > b.priority || (a.priority == b.priority && chains[f][i] < chains[f][j]))
              && (forall b: nat | b < |bindings| :: bindings[b].name == f <==> b in chains[f])
              && CallTrace(bindings, libraries[l].slots[s].target, chains[f], EndOf(f, symbols))
              && (CallTrace(bindings, libraries[l].slots[s].target, trace, end) ==>
                    trace == chains[f] && end == EndOf(f, symbols))
    {
      hide CallTrace, Before;
      var f := libraries[l].slots[s].name;
      SameKeys();
      assert LibraryOk(libraries[l], bindings, heads, {});
      assert ChainOk(bindings, f, chains[f], ends[f]);
      assert f in ends && ends[f] == EndOf(f, symbols);
      CallVisitsChain(bindings, placed, chains, ends, f, trace, end);
      ByPriority(bindings, chains[f]);
      forall b: nat | b < |bindings| && b in chains[f] ensures bindings[b].name == f {}
    }
  }

  lemma ByPriority(bs: seq<Binding>, ch: seq<nat>)
    requires InRange(bs, ch) && Ordered(bs, ch)
    ensures forall i: nat, j: nat | i < j < |ch| ::
              bs[ch[i]].priority > bs[ch[j]].priority || (bs[ch[i]].priority == bs[ch[j]].priority && ch[i] < ch[j])
  {
    forall i: nat, j: nat | i < j < |ch|
      ensures bs[ch[i]].priority > bs[ch[j]].priority || (bs[ch[i]].priority == bs[ch[j]].priority && ch[i] < ch[j])
    {
      assert Before(bs, ch[i], ch[j]);
    }
  }

  // ----- Runs -----

  datatype Action = WrapCall(functions: seq<(Name, nat)>, priority: int) | Open(libraries: seq<Library>, exports: map<Name, nat>)

  function Ids(functions: seq<(Name, nat)>): (r: seq<nat>)
    ensures |r| == |functions| && forall i: nat | i < |r| :: r[i] == functions[i].1
  {
    seq(|functions|, i requires 0 <= i < |functions| => functions[i].1)
  }

  function IdsOf(action: Action): seq<nat> {
    if action.WrapCall? then Ids(action.functions) else []
  }

  function AllIds(run: seq<Action>): seq<nat> {
    if |run| == 0 then [] else AllIds(run[..|run| - 1]) + IdsOf(run[|run| - 1])
  }

  lemma {:induction false} AllIdsPrefix(run: seq<Action>, i: nat)
    requires i <= |run|
    ensures AllIds(run[..i]) <= AllIds(run)
  {
    if i < |run| {
      AllIdsPrefix(run[..|run| - 1], i);
      assert run[..|run| - 1][..i] == run[..i];
    } else {
      assert run[..i] == run;
    }
  }

  ghost predicate HasWrappers(bs: seq<Binding>, ids: seq<nat>) {
    |bs| == |ids| && forall b: nat | b < |bs| :: bs[b].wrapper == ids[b]
  }

  lemma NewIds(functions: seq<(Name, nat)>, priority: int)
    ensures HasWrappers(Gotcha.NewBindings(functions, priority), Ids(functions))
  {
  }

  lemma IdsJoin(bs: seq<Binding>, ids: seq<nat>, cs: seq<Binding>, more: seq<nat>)
    requires HasWrappers(bs, ids) && HasWrappers(cs, more)
    ensures HasWrappers(bs + cs, ids + more)
  {
  }

  lemma DistinctFrom(bs: seq<Binding>, ids: seq<nat>, all: seq<nat>)
    requires HasWrappers(bs, ids) && ids <= all && Distinct(all)
    ensures DistinctWrappers(bs)
  {
    forall a: nat, b: nat | a < b < |bs| ensures bs[a].wrapper != bs[b].wrapper {
      assert ids[a] == all[a] && ids[b] == all[b];
    }
  }

  lemma WrapReady(run: seq<Action>, i: nat, bs: seq<Binding>)
    requires i < |run| && run[i].WrapCall? && Distinct(AllIds(run)) && HasWrappers(bs, AllIds(run[..i]))
    ensures var more := Gotcha.NewBindings(run[i].functions, run[i].priority);
            DistinctWrappers(bs + more) && HasWrappers(bs + more, AllIds(run[..i + 1]))
  {
    hide HasWrappers, Distinct, DistinctWrappers, Gotcha.NewBindings, Ids;
    assert run[..i + 1][..i] == run[..i];
    AllIdsPrefix(run, i + 1);
    var more := Gotcha.NewBindings(run[i].functions, run[i].priority);
    NewIds(run[i].functions, run[i].priority);
    IdsJoin(bs, AllIds(run[..i]), more, Ids(run[i].functions));
    DistinctFrom(bs + more, AllIds(run[..i + 1]), AllIds(run));
  }

  lemma SameIds(bs: seq<Binding>, bs': seq<Binding>, ids: seq<nat>)
    requires HasWrappers(bs, ids) && SameWrappers(bs, bs') && |bs'| == |bs|
    ensures HasWrappers(bs', ids)
  {
  }

  // What a tool asked for: a function, its wrapper and the tool's priority.
  datatype Request = Request(name: Name, wrapper: nat, priority: int)

  function Requested(run: seq<Action>): seq<Request> {
    if |run| == 0 then []
    else
      var last := run[|run| - 1];
      Requested(run[..|run| - 1]) +
      if last.WrapCall? then seq(|last.functions|, i requires 0 <= i < |last.functions| =>
        Request(last.functions[i].0, last.functions[i].1, last.priority)) else []
  }

  /** The bindings are what was asked for, in that order. */
  ghost predicate Grants(bs: seq<Binding>, requests: seq<Request>) {
    |bs| == |requests| && forall b: nat | b < |bs| :: requests[b] == Request(bs[b].name, bs[b].wrapper, bs[b].priority)
  }

  lemma GrantsMore(bs: seq<Binding>, run: seq<Action>, i: nat, bs': seq<Binding>)
    requires i < |run| && Grants(bs, Requested(run[..i])) && |bs'| == |bs| + if run[i].WrapCall? then |run[i].functions| else 0
    requires SameWrappers(bs + if run[i].WrapCall? then Gotcha.NewBindings(run[i].functions, run[i].priority) else [], bs')
    ensures Grants(bs', Requested(run[..i + 1]))
  {
    assert run[..i + 1][..i] == run[..i];
    if !run[i].WrapCall? { assert bs + [] == bs && Requested(run[..i]) + [] == Requested(run[..i]); }
  }

  lemma NothingGranted(run: seq<Action>)
    ensures Grants([], Requested(run[..0]))
  {
  }

  /** The libraries as they were loaded. */
  function Loaded(libs: seq<Library>, run: seq<Action>): seq<Library> {
    if |run| == 0 then libs
    else Loaded(libs, run[..|run| - 1]) + if run[|run| - 1].Open? then run[|run| - 1].libraries else []
  }

  function WrappedIn(run: seq<Action>): set<Name> {
    if |run| == 0 then {}
    else
      var last := run[|run| - 1];
      WrappedIn(run[..|run| - 1]) + if last.WrapCall? then NamesOf(last.functions, |last.functions|) else {}
  }

  lemma NextAction(libs: seq<Library>, run: seq<Action>, i: nat)
    requires i < |run|
    ensures Loaded(libs, run[..i + 1]) == Loaded(libs, run[..i]) + if run[i].Open? then run[i].libraries else []
    ensures WrappedIn(run[..i + 1]) == WrappedIn(run[..i]) + if run[i].WrapCall? then NamesOf(run[i].functions, |run[i].functions|) else {}
  {
    assert run[..i + 1][..i] == run[..i];
  }

  /** In every run of wrap calls with distinct wrappers and library openings, in any order, all chains,
      wrappee pointers and GOT slots stay as they should be; the wrapped functions are those of the calls,
      and the slots of all others, and filtered libraries, are as they were loaded. */
  method Run(libs: seq<Library>, symbols: map<Name, nat>, run: seq<Action>) returns (g: Gotcha)
    requires forall l: nat | l < |libs| :: libs[l].generation == 0
    requires forall i: nat, l: nat | i < |run| && run[i].Open? && l < |run[i].libraries| :: run[i].libraries[l].generation == 0
    requires Distinct(AllIds(run))
    ensures g.Valid() && HasWrappers(g.bindings, AllIds(run))
    ensures Grants(g.bindings, Requested(run))
    ensures g.heads.Keys == WrappedIn(run) && LibrariesLeft(Loaded(libs, run), g.libraries, g.heads.Keys)
  {
    hide Gotcha.Valid, HasWrappers, Distinct, SameWrappers, DistinctWrappers, Gotcha.NewBindings, LibrariesLeft, Loaded, WrappedIn, NamesOf,
      Grants, Requested;
    NothingGranted(run);
    g := new Gotcha(libs, symbols);
    assert HasWrappers(g.bindings, AllIds(run[..0])) by { NoIds(); assert run[..0] == []; }
    assert Loaded(libs, run[..0]) == libs && WrappedIn(run[..0]) == {} by { NothingYet(libs, run); }
    LeftAlone(libs, {});
    for i := 0 to |run|
      invariant g.Valid() && HasWrappers(g.bindings, AllIds(run[..i])) && Grants(g.bindings, Requested(run[..i])) && fresh(g)
      invariant g.heads.Keys == WrappedIn(run[..i]) && LibrariesLeft(Loaded(libs, run[..i]), g.libraries, g.heads.Keys)
    {
      assert run[..i + 1][..i] == run[..i];
      NextAction(libs, run, i);
      ghost var was, loaded, now, few := g.bindings, Loaded(libs, run[..i]), g.libraries, g.heads.Keys;
      match run[i]
      case WrapCall(functions, priority) =>
        WrapReady(run, i, g.bindings);
        var missing := g.Wrap(functions, priority);
        LeftTwice(loaded, now, g.libraries, few, g.heads.Keys);
        assert loaded + [] == loaded;
        LengthAdds(was, functions, priority);
        SameIds(was + Gotcha.NewBindings(functions, priority), g.bindings, AllIds(run[..i + 1]));
        GrantsMore(was, run, i, g.bindings);
      case Open(libraries, exports) =>
        g.Dlopen(libraries, exports);
        LeftWithMore(loaded, now, libraries, few);
        LeftTwice(loaded + libraries, now + libraries, g.libraries, few, g.heads.Keys);
        assert AllIds(run[..i + 1]) == AllIds(run[..i]) + [] == AllIds(run[..i]);
        SameIds(was, g.bindings, AllIds(run[..i]));
        assert was + [] == was;
        GrantsMore(was, run, i, g.bindings);
    }
    assert run[..|run|] == run;
  }

  lemma NothingYet(libs: seq<Library>, run: seq<Action>)
    ensures Loaded(libs, run[..0]) == libs && WrappedIn(run[..0]) == {}
  {
  }

  lemma NoIds()
    ensures HasWrappers([], AllIds([]))
  {
  }

  lemma LengthAdds(bs: seq<Binding>, functions: seq<(Name, nat)>, priority: int)
    ensures |bs + Gotcha.NewBindings(functions, priority)| == |bs| + |functions|
  {
  }
}
