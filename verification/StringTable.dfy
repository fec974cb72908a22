/** The interned strings of a metadata database: a sorted list of C strings that is searched by
    comparing as many bytes as the new string has. */
module StringTables {
  import opened Common

  const NUL: char := '\0'

  // ----- C strings -----

  predicate NulFree(s: string) {
    NUL !in s
  }

  /** What a C string function sees of some bytes. */
  function Text(s: string): (r: string)
    ensures NulFree(r) && |r| <= |s| && (NulFree(s) ==> r == s) && (!NulFree(s) ==> |r| < |s|)
    ensures r == s[..|r|] && (|r| < |s| ==> s[|r|] == NUL)
  {
    if s == [] || s[0] == NUL then []
    else
      assert s == [s[0]] + s[1..];
      [s[0]] + Text(s[1..])
  }

  function Take(s: string, n: nat): string {
    if |s| <= n then s else s[..n]
  }

  predicate Lt(a: string, b: string) {
    b != [] && (a == [] || a[0] < b[0] || (a[0] == b[0] && Lt(a[1..], b[1..])))
  }

  /** strncmp(a, b, n) < 0. */
  predicate FirstLess(a: string, b: string, n: nat) {
    Lt(Take(a, n), Take(b, n))
  }

  /** strncmp(a, b, n) == 0. */
  predicate FirstSame(a: string, b: string, n: nat) {
    Take(a, n) == Take(b, n)
  }

  lemma {:induction false} LtTransitive(a: string, b: string, c: string)
    requires Lt(a, b) && Lt(b, c)
    ensures Lt(a, c)
    decreases |a|
  {
    if a != [] && a[0] == b[0] && b[0] == c[0] { LtTransitive(a[1..], b[1..], c[1..]); }
  }

  lemma {:induction false} LtTotal(a: string, b: string)
    ensures !(Lt(a, b) && Lt(b, a)) && (a == b <==> !Lt(a, b) && !Lt(b, a))
    decreases |a|
  {
    if a != [] && b != [] {
      LtTotal(a[1..], b[1..]);
      assert a == [a[0]] + a[1..] && b == [b[0]] + b[1..];
    }
  }

  /** Not less is transitive, too. */
  lemma NotLess(a: string, b: string, c: string)
    requires !Lt(b, a) && !Lt(c, b)
    ensures !Lt(c, a)
  {
    LtTotal(a, b);
    LtTotal(b, c);
    if Lt(a, b) && Lt(b, c) {
      LtTransitive(a, b, c);
    }
    LtTotal(a, c);
  }

  /** Comparing only as many bytes as a string has decides the order as the whole strings do. */
  lemma {:induction false} FirstLessIff(a: string, s: string, n: nat)
    requires |s| <= n
    ensures FirstLess(a, s, n) <==> Lt(a, s)
    decreases n
  {
    if a != [] && s != [] {
      FirstLessIff(a[1..], s[1..], n - 1);
      assert Take(a, n)[1..] == Take(a[1..], n - 1);
    }
  }

  // ----- The table -----

  // What a pointer points at, by order of allocation.
  type Heap = seq<string>

  ghost predicate Pointers(list: seq<nat>, heap: Heap) {
    && |list| == |heap| && (forall i: nat | i < |list| :: list[i] < |heap|)
    && (forall p: nat | p < |heap| :: p in list)
  }

  ghost predicate Sorted(list: seq<nat>, heap: Heap)
    requires Pointers(list, heap)
  {
    forall i: nat, j: nat | i < j < |list| :: !Lt(heap[list[j]], heap[list[i]])
  }

  ghost predicate Ok(list: seq<nat>, heap: Heap) {
    Pointers(list, heap) && Sorted(list, heap) && forall p: nat | p < |heap| :: NulFree(heap[p])
  }

  /** Everything before position i is less than s, and nothing from there on is. */
  ghost predicate Splits(list: seq<nat>, heap: Heap, s: string, i: nat)
    requires Pointers(list, heap)
  {
    && i <= |list|
    && (forall k: nat | k < i :: Lt(heap[list[k]], s))
    && (forall k: nat | i <= k < |list| :: !Lt(heap[list[k]], s))
  }

  /** A string that is in the table is found where the search ends. */
  lemma FoundIff(list: seq<nat>, heap: Heap, s: string, i: nat)
    requires Ok(list, heap) && Splits(list, heap, s, i)
    ensures (i < |list| && heap[list[i]] == s) <==> s in heap
  {
    if s in heap {
      var p: nat :| p < |heap| && heap[p] == s;
      assert p in list;
      var k: nat :| k < |list| && list[k] == p;
      LtTotal(s, s);
      assert i <= k;
      LtTotal(heap[list[i]], s);
    }
  }

  lemma InsertOk(list: seq<nat>, heap: Heap, s: string, i: nat)
    requires Ok(list, heap) && Splits(list, heap, s, i) && NulFree(s)
    ensures Ok(Inserted(list, i, |heap|), heap + [s])
  {
    var l, h := Inserted(list, i, |heap|), heap + [s];
    assert Pointers(l, h) by {
      assert l[i] == |heap|;
      forall p: nat | p < |h| ensures p in l {
        if p < |heap| {
          assert p in list;
          var k: nat :| k < |list| && list[k] == p;
          assert l[if k < i then k else k + 1] == p;
        }
      }
    }
    forall a: nat, b: nat | a < b < |l| ensures !Lt(h[l[b]], h[l[a]]) {
      if b == i {
        LtTotal(h[l[a]], s);
      }
    }
  }

  class StringTable {
    var list: seq<nat>
    var heap: Heap

    ghost predicate Valid()
      reads this
    {
      Ok(list, heap)
    }

    constructor ()
      ensures Valid() && list == [] && heap == []
    {
      list, heap := [], [];
    }

    /** The binary search of std::lower_bound. */
    method LowerBound(str: string, len: nat) returns (i: nat)
      requires Valid() && |Text(str)| <= len
      ensures Splits(list, heap, Text(str), i)
    {
      hide FirstLess, Lt, Text;
      i := 0;
      var n: nat := |list|;
      while n > 0
        invariant i + n <= |list|
        invariant forall k: nat | k < i :: Lt(heap[list[k]], Text(str))
        invariant forall k: nat | i + n <= k < |list| :: !Lt(heap[list[k]], Text(str))
      {
        var half := n / 2;
        var mid := i + half;
        FirstLessIff(heap[list[mid]], Text(str), len);
        if FirstLess(heap[list[mid]], Text(str), len) {
          forall k: nat | k < mid ensures Lt(heap[list[k]], Text(str)) { Below(list, heap, Text(str), k, mid); }
          i, n := mid + 1, n - half - 1;
        } else {
          forall k: nat | mid < k < |list| ensures !Lt(heap[list[k]], Text(str)) { NotLess(Text(str), heap[list[mid]], heap[list[k]]); }
          n := half;
        }
      }
    }

    /** Looks a string up and adds it if it is not there. A final NUL is not part of the string. The
        list stays sorted, equal strings without NUL share a pointer, and the texts stay pairwise
        different exactly if the string has no NUL or its text is new. */
    method MakeStringVariant(str: string) returns (p: nat, ghost i: nat)
      requires Valid()
      modifies this
      ensures Valid() && p < |heap| && heap[p] == Text(Trimmed(str)) && i < |list| && p == list[i]
      ensures Splits(old(list), old(heap), Text(Trimmed(str)), i)
      ensures NulFree(Trimmed(str)) && Trimmed(str) in old(heap) ==> heap == old(heap) && list == old(list)
      ensures !(NulFree(Trimmed(str)) && Trimmed(str) in old(heap)) ==>
                && p == |old(heap)| && heap == old(heap) + [Text(Trimmed(str))] && list == Inserted(old(list), i, p)
      ensures Distinct(heap) <==> old(Distinct(heap)) && (NulFree(Trimmed(str)) || Text(Trimmed(str)) !in old(heap))
    {
      hide FirstSame, Lt, Text, Ok, Distinct, Splits;
      var s := Trimmed(str);
      TextFacts(s);
      OkFacts(list, heap);
      var at := LowerBound(s, |s|);
      i := at;
      SplitsFacts(list, heap, Text(s), at);
      FoundIff(list, heap, Text(s), at);
      if at < |list| && FirstSame(heap[list[at]], Text(s), |s|) && |heap[list[at]]| == |s| {
        FoundSame(heap[list[at]], s);
        p := list[at];
        return;
      }
      if at < |list| { SameFound(heap[list[at]], s); }
      InsertOk(list, heap, Text(s), at);
      DistinctSnoc(heap, Text(s));
      p := |heap|;
      heap := heap + [Text(s)];
      list := Inserted(list, at, p);
    }
  }

  function Trimmed(str: string): string {
    if str != [] && str[|str| - 1] == NUL then str[..|str| - 1] else str
  }

  lemma TrimmedMeaning(s: string)
    ensures Trimmed(s + [NUL]) == s && (s == [] || s[|s| - 1] != NUL ==> Trimmed(s) == s)
  {
    assert (s + [NUL])[..|s|] == s;
  }

  lemma Below(list: seq<nat>, heap: Heap, s: string, k: nat, mid: nat)
    requires Pointers(list, heap) && Sorted(list, heap) && k <= mid < |list| && Lt(heap[list[mid]], s)
    ensures Lt(heap[list[k]], s)
  {
    if k < mid {
      LtTotal(heap[list[mid]], s);
      LtTotal(heap[list[k]], s);
      if !Lt(heap[list[k]], s) { NotLess(s, heap[list[k]], heap[list[mid]]); }
    }
  }

  lemma TextFacts(s: string)
    ensures NulFree(Text(s)) && |Text(s)| <= |s| && (NulFree(s) ==> Text(s) == s) && (!NulFree(s) ==> |Text(s)| < |s|)
  {
  }

  lemma OkFacts(list: seq<nat>, heap: Heap)
    requires Ok(list, heap)
    ensures Pointers(list, heap)
  {
  }

  lemma SplitsFacts(list: seq<nat>, heap: Heap, s: string, i: nat)
    requires Pointers(list, heap) && Splits(list, heap, s, i)
    ensures i <= |list|
  {
  }

  // An entry of the length of s with the same first bytes is s, so s has no NUL.
  lemma FoundSame(e: string, s: string)
    requires FirstSame(e, Text(s), |s|) && |e| == |s|
    ensures e == Text(s) && NulFree(s)
  {
    TextFacts(s);
  }

  lemma SameFound(e: string, s: string)
    ensures e == s && NulFree(s) ==> FirstSame(e, Text(s), |s|) && |e| == |s|
  {
    TextFacts(s);
  }

  lemma DistinctSnoc(heap: Heap, s: string)
    ensures Distinct(heap + [s]) <==> Distinct(heap) && s !in heap
  {
    var h := heap + [s];
    if Distinct(h) {
      forall p: nat, q: nat | p < q < |heap| ensures heap[p] != heap[q] { assert h[p] != h[q]; }
      forall p: nat | p < |heap| ensures heap[p] != s { assert h[p] != h[|heap|]; }
    }
  }

  // ----- Whole runs -----

  /** Strings without NUL share a pointer if and only if they are equal. */
  method Intern(strs: seq<string>) returns (ps: seq<nat>, t: StringTable)
    requires forall s | s in strs :: NulFree(Trimmed(s))
    ensures t.Valid() && Distinct(t.heap) && |ps| == |strs|
    ensures forall j: nat | j < |strs| :: ps[j] < |t.heap| && t.heap[ps[j]] == Trimmed(strs[j])
    ensures forall j: nat, k: nat | j < |strs| && k < |strs| :: ps[j] == ps[k] <==> Trimmed(strs[j]) == Trimmed(strs[k])
  {
    hide Lt, Text, Ok, Splits, Trimmed;
    t := new StringTable();
    ps := [];
    for n := 0 to |strs|
      invariant fresh(t) && t.Valid() && Distinct(t.heap) && |ps| == n
      invariant forall j: nat | j < n :: ps[j] < |t.heap| && t.heap[ps[j]] == Trimmed(strs[j])
    {
      assert strs[n] in strs;
      TextFacts(Trimmed(strs[n]));
      ghost var heap := t.heap;
      var p: nat;
      ghost var i: nat;
      p, i := t.MakeStringVariant(strs[n]);
      assert forall q: nat | q < |heap| :: t.heap[q] == heap[q];
      ps := ps + [p];
    }
  }

  /** A string with a NUL inside is never found, and its copy hides an earlier equal text: the same
      string gets two pointers. */
  method NulExample() returns (p: nat, q: nat, r: nat)
    ensures p != r
  {
    hide Lt, Ok, Distinct;
    var t := new StringTable();
    ghost var i, j, k: nat;
    p, i := t.MakeStringVariant("ab");
    q, j := t.MakeStringVariant("ab\0c");
    AbText();
    assert t.heap == ["ab", "ab"];
    ghost var list := t.list;
    r, k := t.MakeStringVariant("ab");
    LtTotal("ab", "ab");
  }

  lemma AbText()
    ensures Trimmed("ab") == "ab" && Text("ab") == "ab" && NulFree("ab")
    ensures Trimmed("ab\0c") == "ab\0c" && Text("ab\0c") == "ab" && !NulFree("ab\0c")
  {
    assert "ab\0c"[1..] == "b\0c" && "b\0c"[1..] == "\0c" && "ab\0c"[2] == NUL;
  }
}
