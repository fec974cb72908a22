/** The per-thread cache of the process blackboard snapshot. Writers update the blackboard under its
    lock and bump its update count; a reader compares the count, read without the lock, with the
    count its cached copy was stored under, and takes a new snapshot under the lock if it is behind. */
module SnapshotCaches {
  import opened Variants
  import B = Blackboards

  // Capacity of a snapshot record.
  const SNAP_MAX: nat := 120

  /** The part of a listing that fits a snapshot record. */
  function Record(listing: seq<Entry>): seq<Entry> {
    if |listing| <= SNAP_MAX then listing else listing[..SNAP_MAX]
  }

  /** It is the listing up to the capacity, which is what an empty snapshot builder holds after it. */
  lemma RecordMeaning(listing: seq<Entry>)
    ensures |Record(listing)| == (if |listing| <= SNAP_MAX then |listing| else SNAP_MAX)
    ensures forall j: nat | j < |Record(listing)| :: Record(listing)[j] == listing[j]
    ensures Record(listing) == B.Filled(SNAP_MAX, [], listing)
  {
    hide B.Filled;
    B.FilledAt(SNAP_MAX, [], listing);
  }

  /** A pull from the blackboard itself. */
  method Pull(b: B.Blackboard) returns (snapshot: seq<Entry>)
    requires b.Valid()
    ensures snapshot == Record(b.Snapshot())
  {
    hide B.Filled, B.Rep, Record;
    var rec := new B.SnapshotBuilder(SNAP_MAX);
    b.TakeSnapshot(rec);
    RecordMeaning(b.Snapshot());
    snapshot := rec.data;
  }

  // Where a thread is in the writing critical section, or in its snapshot pull. `count` is the
  // update count the pull started with.
  datatype Pc = Idle
              | Writing                      // lock held, update may be partly done
              | Counted                      // update count bumped, bitmap still to be adjusted
              | Looking(count: nat)          // count read, comparison ahead
              | Copying(count: nat)          // lock held by the reader, nothing copied yet
              | Copied(count: nat)           // lock released again, count not stored yet

  datatype Local = Local(pc: Pc, snapshot: seq<Entry>, stored: int, lastRead: int)

  type Tid = nat

  /** `listing` is what the blackboard lists right now; `history[v]` what it listed after v updates. */
  datatype State = State(listing: seq<Entry>, ucount: nat, holder: set<Tid>, local: map<Tid, Local>, history: seq<seq<Entry>>)

  datatype Action = Lock | Mutate(to: seq<Entry>) | Count | UnlockUpdated | UnlockUnchanged
                  | ReadCount | UpToDate | LockForCopy | CopyAndUnlock | StoreCount

  predicate Init(s: State) {
    && s.ucount == 0 && s.holder == {} && s.history == [s.listing]
    && forall t | t in s.local :: s.local[t] == Local(Idle, [], -1, -1)
  }

  function At(s: State, t: Tid, l: Local): State
  {
    s.(local := s.local[t := l])
  }

  /** Thread t takes one atomic step of the given kind from s to s'. */
  ghost predicate Next(s: State, t: Tid, a: Action, s': State) {
    && t in s.local
    && var l := s.local[t];
    match a
    case Lock => l.pc.Idle? && s.holder == {} && s' == At(s.(holder := {t}), t, l.(pc := Writing))
    case Mutate(to) => (l.pc.Writing? || l.pc.Counted?) && s' == s.(listing := to)
    case Count => l.pc.Writing? && s' == At(s.(ucount := s.ucount + 1), t, l.(pc := Counted))
    case UnlockUpdated =>
      l.pc.Counted? && s' == At(s.(holder := {}, history := s.history + [s.listing]), t, l.(pc := Idle))
    // deleting an absent key returns early, with the table untouched
    case UnlockUnchanged =>
      l.pc.Writing? && |s.history| > 0 && s.listing == s.history[|s.history| - 1]
      && s' == At(s.(holder := {}), t, l.(pc := Idle))
    case ReadCount => l.pc.Idle? && s' == At(s, t, l.(pc := Looking(s.ucount)))
    case UpToDate =>
      l.pc.Looking? && l.pc.count <= l.stored && s' == At(s, t, l.(pc := Idle, lastRead := l.pc.count))
    case LockForCopy =>
      l.pc.Looking? && l.pc.count > l.stored && s.holder == {}
      && s' == At(s.(holder := {t}), t, l.(pc := Copying(l.pc.count), snapshot := []))
    case CopyAndUnlock =>
      l.pc.Copying? && s' == At(s.(holder := {}), t, l.(pc := Copied(l.pc.count), snapshot := Record(s.listing)))
    case StoreCount =>
      l.pc.Copied? && s' == At(s, t, l.(pc := Idle, stored := l.pc.count, lastRead := l.pc.count))
  }

  /** The snapshot is that of some version, no older than the given count. */
  ghost predicate FromVersion(s: State, snapshot: seq<Entry>, count: int) {
    exists v: nat :: count <= v < |s.history| && snapshot == Record(s.history[v])
  }

  predicate HoldsLock(pc: Pc) {
    pc.Writing? || pc.Counted? || pc.Copying?
  }

  ghost predicate LockInv(s: State) {
    && (forall t, u | t in s.holder && u in s.holder :: t == u)
    && (forall t | t in s.holder :: t in s.local)
    && (forall t | t in s.local :: t in s.holder <==> HoldsLock(s.local[t].pc))
  }

  /** Outside the writers' critical section the listing is that of the latest version. */
  ghost predicate VersionInv(s: State) {
    && |s.history| > 0
    && ((exists t :: t in s.local && s.local[t].pc.Counted?) || |s.history| == s.ucount + 1)
    && (forall t | t in s.local && s.local[t].pc.Counted? :: |s.history| == s.ucount)
    && ((exists t :: t in s.local && (s.local[t].pc.Writing? || s.local[t].pc.Counted?))
        || s.listing == s.history[|s.history| - 1])
  }

  ghost predicate CacheInv(s: State) {
    forall t | t in s.local :: ThreadInv(s, s.local[t])
  }

  ghost predicate ThreadInv(s: State, l: Local) {
    && l.lastRead <= l.stored
    && match l.pc
       case Looking(c) => c <= s.ucount && CachedOk(s, l)
       case Copying(c) => c <= s.ucount && l.stored < c
       case Copied(c) => l.stored < c && FromVersion(s, l.snapshot, c)
       case _ => CachedOk(s, l)
  }

  ghost predicate CachedOk(s: State, l: Local) {
    l.stored >= 0 ==> FromVersion(s, l.snapshot, l.stored)
  }

  ghost predicate Inv(s: State) {
    LockInv(s) && VersionInv(s) && CacheInv(s)
  }

  lemma NextKeepsLock(s: State, t: Tid, a: Action, s': State)
    requires Inv(s) && Next(s, t, a, s')
    ensures LockInv(s')
  {
    hide VersionInv, CacheInv;
  }

  lemma NextKeepsVersions(s: State, t: Tid, a: Action, s': State)
    requires Inv(s) && Next(s, t, a, s')
    ensures VersionInv(s')
    ensures |s.history| <= |s'.history| && forall v: nat | v < |s.history| :: s'.history[v] == s.history[v]
    ensures s.ucount <= s'.ucount
  {
    hide CacheInv;
    if a.Mutate? || a.Count? {
      assert s'.local[t].pc.Writing? || s'.local[t].pc.Counted?;
    } else {
      forall u | u in s.local && s.local[u].pc.Counted? && u != t
        ensures u in s'.local && s'.local[u].pc.Counted?
      {}
      forall u | u in s.local && s.local[u].pc.Writing? && u != t
        ensures u in s'.local && s'.local[u].pc.Writing?
      {}
    }
  }

  // With the lock free or held by a reader, a copy is of a version at least as new as any count read.
  lemma CopyIsCurrent(s: State, t: Tid)
    requires Inv(s) && t in s.local && s.local[t].pc.Copying?
    ensures FromVersion(s, Record(s.listing), s.local[t].pc.count)
  {
    assert ThreadInv(s, s.local[t]);
    assert s.listing == s.history[|s.history| - 1];
    var v: nat := |s.history| - 1;
    assert s.local[t].pc.count <= v < |s.history| && Record(s.listing) == Record(s.history[v]);
  }

  lemma NextKeepsCaches(s: State, t: Tid, a: Action, s': State)
    requires Inv(s) && Next(s, t, a, s')
    ensures CacheInv(s')
  {
    hide LockInv, VersionInv, FromVersion, Record;
    NextKeepsVersions(s, t, a, s');
    if a.CopyAndUnlock? {
      CopyIsCurrent(s, t);
      VersionsRemain(s, s', Record(s.listing), s.local[t].pc.count);
    }
    forall u | u in s'.local
      ensures ThreadInv(s', s'.local[u])
    {
      assert ThreadInv(s, s.local[u]);
      VersionsRemain(s, s', s.local[u].snapshot, s.local[u].stored);
      if s.local[u].pc.Copied? { VersionsRemain(s, s', s.local[u].snapshot, s.local[u].pc.count); }
    }
  }

  lemma VersionsRemain(s: State, s': State, snapshot: seq<Entry>, count: int)
    requires |s.history| <= |s'.history| && forall v: nat | v < |s.history| :: s'.history[v] == s.history[v]
    ensures FromVersion(s, snapshot, count) ==> FromVersion(s', snapshot, count)
  {}

  /** A run: any interleaving of steps of any threads. */
  ghost predicate IsRun(states: seq<State>, steps: seq<(Tid, Action)>) {
    && |states| == |steps| + 1 && Init(states[0])
    && forall i: nat | i < |steps| :: Next(states[i], steps[i].0, steps[i].1, states[i + 1])
  }

  lemma {:induction false} InvHolds(states: seq<State>, steps: seq<(Tid, Action)>)
    requires IsRun(states, steps)
    ensures forall i: nat | i < |states| :: Inv(states[i])
  {
    if steps != [] {
      var n := |steps|;
      InvHolds(states[..n], steps[..n - 1]);
      var s := states[..n][n - 1];
      assert Inv(s);
      assert Next(states[n - 1], steps[n - 1].0, steps[n - 1].1, states[n]);
      NextKeepsLock(s, steps[n - 1].0, steps[n - 1].1, states[n]);
      NextKeepsVersions(s, steps[n - 1].0, steps[n - 1].1, states[n]);
      NextKeepsCaches(s, steps[n - 1].0, steps[n - 1].1, states[n]);
      forall i: nat | i < |states|
        ensures Inv(states[i])
      {
        if i < n { assert states[i] == states[..n][i]; }
      }
    }
  }

  /** Version v was listed no earlier than the given count, and the snapshot has its entries in order, as
      many as there are and fit. */
  ghost predicate CopyOf(s: State, snapshot: seq<Entry>, count: int, v: nat) {
    && count <= v < |s.history|
    && |snapshot| == (if |s.history[v]| <= SNAP_MAX then |s.history[v]| else SNAP_MAX)
    && forall j: nat | j < |snapshot| :: snapshot[j] == s.history[v][j]
  }

  /** In every run, whenever a thread has finished a pull, its cached snapshot is that of some version
      of the blackboard no older than the update count it read at the start of that pull. */
  lemma CacheIsFresh(states: seq<State>, steps: seq<(Tid, Action)>, i: nat, t: Tid)
    requires IsRun(states, steps) && i < |states| && t in states[i].local
    requires states[i].local[t].pc.Idle? && states[i].local[t].lastRead >= 0
    ensures FromVersion(states[i], states[i].local[t].snapshot, states[i].local[t].lastRead)
    ensures exists v: nat :: CopyOf(states[i], states[i].local[t].snapshot, states[i].local[t].lastRead, v)
  {
    hide Record, IsRun;
    InvHolds(states, steps);
    var l := states[i].local[t];
    assert ThreadInv(states[i], l);
    var v: nat :| l.stored <= v < |states[i].history| && l.snapshot == Record(states[i].history[v]);
    RecordMeaning(states[i].history[v]);
    assert CopyOf(states[i], l.snapshot, l.lastRead, v);
  }
}
