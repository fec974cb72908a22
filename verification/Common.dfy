/** Notions used by several parts of the model. */
module Common {

  datatype Option<T> = None | Some(value: T)

  ghost predicate Distinct<T>(s: seq<T>) {
    forall i: nat, j: nat | i < j < |s| :: s[i] != s[j]
  }

  function Without<T>(s: seq<T>, k: nat): (r: seq<T>)
    requires k < |s|
    ensures |r| == |s| - 1 && forall j: nat | j < |r| :: r[j] == s[if j < k then j else j + 1]
  {
    s[..k] + s[k + 1..]
  }

  function Inserted<T>(s: seq<T>, k: nat, x: T): seq<T>
    requires k <= |s|
  {
    s[..k] + [x] + s[k..]
  }

  // ----- Multiples -----

  lemma AwayFromZero(p: int, d: int)
    requires p > 0
    ensures d > 0 ==> p * d >= p
    ensures d < 0 ==> p * d <= -p
  {
  }

  lemma AddModulus(x: nat, p: nat)
    requires p > 0
    ensures (x + p) % p == x % p
  {
    var d := (x + p) / p - x / p - 1;
    assert p * d == x % p - (x + p) % p;
    AwayFromZero(p, d);
  }

  lemma {:induction false} Multiple(p: nat, m: nat)
    requires p > 0
    ensures (p * m) % p == 0
  {
    if m == 0 {
      assert p * m == 0;
    } else {
      Multiple(p, m - 1);
      var x := p * (m - 1);
      assert p * m == x + p;
      AddModulus(x, p);
    }
  }

  function RoundUp(n: nat, unit: nat): (r: nat)
    requires unit > 0
    ensures n <= r < n + unit && r % unit == 0
  {
    var diff := n % unit;
    if diff == 0 then n else NextMultiple(n, unit); n + (unit - diff)
  }

  lemma NextMultiple(n: nat, unit: nat)
    requires unit > 0 && n % unit != 0
    ensures (n + (unit - n % unit)) % unit == 0
  {
    var q := n / unit;
    assert n + (unit - n % unit) == unit * (q + 1);
    Multiple(unit, q + 1);
  }
}
