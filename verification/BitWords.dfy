/** The 32-bit words of the blackboard's table of contents, each as the set of its one-bits:
    `w |= 1 << i` is `w + {i}`, `w &= ~(1 << i)` is `w - {i}`, and zero is `{}`. */
module BitWords {

  type Word = w: set<nat> | forall b | b in w :: b < 32

  // w & ~(1 << i)
  function ClearBit(w: Word, i: nat): Word {
    w - {i}
  }

  // ffs(): one plus the index of the lowest bit set, zero for the zero word.
  method FirstHighBit(w: Word) returns (r: nat)
    ensures r == 0 <==> w == {}
    ensures r != 0 ==> r - 1 in w && forall b | b in w :: r - 1 <= b
  {
    r := 0;
    while r < 32 && r !in w
      invariant r <= 32
      invariant forall b | b in w :: r <= b
    {
      r := r + 1;
    }
    if r == 32 {
      return 0;
    }
    r := r + 1;
  }
}
