/** Variable-length encoding of 64-bit integers: seven bits per byte, low bits first, the top bit of
    a byte set while more follow. */
module Vlenc {

  type Byte = b: nat | b < 256

  const U64: nat := 0x1_0000_0000_0000_0000

  function Encode(v: nat): (r: seq<Byte>)
    ensures |r| > 0
  {
    if v < 128 then [v] else [v % 128 + 128] + Encode(v / 128)
  }

  /** Values that may start at byte p of a code: ten bytes hold 64 bits, the last one a single bit. */
  function Limit(p: nat): nat
    requires p <= 9
    decreases 9 - p
  {
    if p == 9 then 2 else 128 * Limit(p + 1)
  }

  lemma Limits()
    ensures Limit(0) == U64 && Limit(1) == 0x200_0000_0000_0000
  {
    assert Limit(9) == 2;
    assert Limit(6) == 0x40_0000;
    assert Limit(3) == 0x8000_0000_000;
  }

  /** Value and length of the code at the front of s, read from byte p of the code on. */
  function Decode(s: seq<Byte>, p: nat): (nat, nat)
    requires p <= 9
    decreases 9 - p
  {
    if s == [] then (0, 0)
    else if p == 9 then (s[0] % 128 % 2, 1)
    else if s[0] < 128 then (s[0], 1)
    else
      var rest := Decode(s[1..], p + 1);
      (s[0] % 128 + 128 * rest.0, 1 + rest.1)
  }

  /** Decoding what was encoded, whatever follows it, gives the value and its length back. */
  lemma {:induction false} RoundTrip(v: nat, rest: seq<Byte>, p: nat)
    requires p <= 9 && v < Limit(p)
    ensures Decode(Encode(v) + rest, p) == (v, |Encode(v)|)
    ensures |Encode(v)| <= 10 - p
    decreases 9 - p
  {
    var s := Encode(v) + rest;
    if v < 128 {
      assert s[0] == v;
    } else {
      assert s[1..] == Encode(v / 128) + rest;
      RoundTrip(v / 128, rest, p + 1);
    }
  }

  lemma RoundTripU64(v: nat, rest: seq<Byte>)
    requires v < U64
    ensures Decode(Encode(v) + rest, 0) == (v, |Encode(v)|)
    ensures |Encode(v)| <= 10
  {
    Limits();
    RoundTrip(v, rest, 0);
  }

  /** s with the bytes at pos replaced by the given ones. */
  function Overwrite(s: seq<Byte>, pos: nat, bytes: seq<Byte>): (r: seq<Byte>)
    requires pos + |bytes| <= |s|
    ensures |r| == |s|
  {
    s[..pos] + bytes + s[pos + |bytes|..]
  }

  lemma OverwriteNext(s: seq<Byte>, pos: nat, bytes: seq<Byte>, b: Byte)
    requires pos + |bytes| < |s|
    ensures Overwrite(s, pos, bytes)[pos + |bytes| := b] == Overwrite(s, pos, bytes + [b])
  {}

  lemma OverwriteNone(s: seq<Byte>, pos: nat)
    requires pos <= |s|
    ensures Overwrite(s, pos, []) == s
  {}

  method Store(buf: array<Byte>, i: nat, b: Byte)
    requires i < buf.Length
    modifies buf
    ensures buf[..] == old(buf[..])[i := b]
  {
    buf[i] := b;
  }

  /** Writes the code of val into buf at pos; the caller provides room for ten bytes. */
  method VlencU64(val: nat, buf: array<Byte>, pos: nat) returns (nbytes: nat)
    requires val < U64 && pos + 10 <= buf.Length
    modifies buf
    ensures nbytes == |Encode(val)| <= 10
    ensures buf[..] == Overwrite(old(buf[..]), pos, Encode(val))
  {
    hide Encode, Overwrite;
    ghost var s := buf[..];
    RoundTripU64(val, []);
    OverwriteNone(s, pos);
    var v := val;
    nbytes := 0;
    ghost var done: seq<Byte> := [];
    while v > 0x7F
      invariant done + Encode(v) == Encode(val) && nbytes == |done|
      invariant buf[..] == Overwrite(s, pos, done)
    {
      var b: Byte := v % 128 + 128;
      EncodeMore(done, v, b);
      OverwriteNext(s, pos, done, b);
      Store(buf, pos + nbytes, b);
      done := done + [b];
      v := v / 128;
      nbytes := nbytes + 1;
    }
    EncodeLast(v);
    OverwriteNext(s, pos, done, v);
    Store(buf, pos + nbytes, v);
    nbytes := nbytes + 1;
  }

  lemma EncodeMore(done: seq<Byte>, v: nat, b: Byte)
    requires v >= 128 && b == v % 128 + 128
    ensures done + Encode(v) == (done + [b]) + Encode(v / 128)
  {}

  lemma EncodeLast(v: nat)
    requires v < 128
    ensures Encode(v) == [v]
  {}

  function Pow128(p: nat): (r: nat)
    ensures r > 0
  {
    if p == 0 then 1 else 128 * Pow128(p - 1)
  }

  /** The code at the front of s ends within s. */
  predicate Complete(s: seq<Byte>, p: nat)
    requires p <= 9
    decreases 9 - p
  {
    s != [] && (p == 9 || s[0] < 128 || Complete(s[1..], p + 1))
  }

  lemma {:induction false} EncodeComplete(v: nat, rest: seq<Byte>, p: nat)
    requires p <= 9 && v < Limit(p)
    ensures Complete(Encode(v) + rest, p)
    decreases 9 - p
  {
    if v >= 128 {
      assert (Encode(v) + rest)[1..] == Encode(v / 128) + rest;
      EncodeComplete(v / 128, rest, p + 1);
    }
  }

  lemma PowersBelow(p: nat)
    requires p <= 9
    ensures Pow128(p) <= 0x8000_0000_0000_0000
    ensures p == 9 ==> Pow128(p) == 0x8000_0000_0000_0000
  {
    assert Pow128(3) == 0x20_0000;
    assert Pow128(6) == 0x400_0000_0000;
    assert Pow128(9) == 0x8000_0000_0000_0000;
  }

  // x shifted left by 7n bits, and `val |= x << 7n` on 64-bit words for x above the bits of val.
  function Shifted(n: nat, x: nat): nat {
    Pow128(n) * x
  }

  function OrGroup(val: nat, b: nat, n: nat): nat {
    (val + Shifted(n, b)) % U64
  }

  // A byte adds its low seven bits at position 7n.
  lemma AddGroup(b: nat, n: nat, val: nat, more: nat)
    requires b < 128 && n < 9 && val < Pow128(n)
    ensures OrGroup(val, b, n) < Pow128(n + 1)
    ensures OrGroup(val, b, n) < U64
    ensures val + Shifted(n, b + 128 * more) == OrGroup(val, b, n) + Shifted(n + 1, more)
  {
    var p := Pow128(n);
    PowersBelow(n + 1);
    NextPower(n);
    hide Pow128, Shifted;
    GroupProducts(p, b, more);
    assert Shifted(n, b) == p * b && Shifted(n + 1, more) == (128 * p) * more && Shifted(n, b + 128 * more) == p * (b + 128 * more) by {
      ShiftedIs(n, b);
      ShiftedIs(n + 1, more);
      ShiftedIs(n, b + 128 * more);
    }
  }

  lemma NextPower(n: nat)
    ensures Pow128(n + 1) == 128 * Pow128(n)
  {
  }

  lemma ShiftedIs(n: nat, x: nat)
    ensures Shifted(n, x) == Pow128(n) * x
  {
  }

  lemma GroupProducts(p: nat, b: nat, more: nat)
    requires b < 128
    ensures p * b <= 127 * p && p * (b + 128 * more) == p * b + (128 * p) * more
  {
    assert p * (b + 128 * more) == p * b + p * (128 * more);
    assert p * (128 * more) == (128 * p) * more;
    assert p * b + p * (127 - b) == 127 * p && p * (127 - b) >= 0;
  }

  // The tenth byte contributes its lowest bit only; the rest is shifted out.
  lemma LastBit(b: nat, val: nat)
    requires b < 128 && val < Pow128(9)
    ensures OrGroup(val, b, 9) == val + Shifted(9, b % 2) < U64
  {
    PowersBelow(9);
    var q, half := b / 2, 0x8000_0000_0000_0000;
    assert val + b * half == val + b % 2 * half + q * U64;
    assert (val + b % 2 * half + q * U64) % U64 == val + b % 2 * half by { ModOfSum(val + b % 2 * half, q); }
  }

  lemma ModOfSum(r: nat, q: nat)
    requires r < U64
    ensures (r + q * U64) % U64 == r
  {}

  // One byte of decoding, at byte n of the code.
  lemma DecodeStep(s: seq<Byte>, n: nat)
    requires n <= 9 && n <= |s| && Complete(s[n..], n)
    ensures n < |s|
    ensures if n < 9 && s[n] >= 128 then
              && Complete(s[n + 1..], n + 1)
              && Decode(s[n..], n).0 == s[n] % 128 + 128 * Decode(s[n + 1..], n + 1).0
              && Decode(s[n..], n).1 == 1 + Decode(s[n + 1..], n + 1).1
            else Decode(s[n..], n) == (if n == 9 then s[n] % 128 % 2 else s[n] % 128, 1)
  {
    assert s[n..][1..] == s[n + 1..];
  }

  /** Reads a code from buf at pos and returns its value and length. */
  method VldecU64(buf: seq<Byte>, pos: nat) returns (val: nat, n: nat)
    requires pos <= |buf| && Complete(buf[pos..], 0)
    ensures (val, n) == Decode(buf[pos..], 0) && val < U64
    ensures pos + n <= |buf|
  {
    hide Pow128, Shifted, OrGroup, Decode, Complete;
    ghost var s := buf[pos..];
    val, n := 0, 0;
    assert s[0..] == s;
    DecodeStep(s, 0);
    ShiftFacts(Decode(s, 0).0);
    while n < 9 && buf[pos + n] >= 128
      invariant n <= 9 && pos + n < |buf| && Complete(s[n..], n)
      invariant val < Pow128(n)
      invariant Decode(s, 0).0 == val + Shifted(n, Decode(s[n..], n).0)
      invariant Decode(s, 0).1 == n + Decode(s[n..], n).1
      decreases 9 - n
    {
      DecodeStep(s, n);
      AddGroup(buf[pos + n] % 128, n, val, Decode(s[n + 1..], n + 1).0);
      val := OrGroup(val, buf[pos + n] % 128, n);
      n := n + 1;
      DecodeStep(s, n);
    }
    DecodeStep(s, n);
    if n < 9 {
      AddGroup(buf[pos + n] % 128, n, val, 0);
      ShiftZero(n + 1);
    } else {
      LastBit(buf[pos + n] % 128, val);
    }
    val := OrGroup(val, buf[pos + n] % 128, n);
    n := n + 1;
  }

  lemma ShiftFacts(x: nat)
    ensures Pow128(0) == 1 && Shifted(0, x) == x
  {}

  lemma ShiftZero(n: nat)
    ensures Shifted(n, 0) == 0
  {}

  // --- The format

  /** Groups of seven bits, lowest first, with the top bit set in all bytes but the last, and no more bytes
      than are needed. */
  lemma EncodeFormat(v: nat, i: nat)
    requires i < |Encode(v)|
    ensures Encode(v)[i] == (v / Pow128(i)) % 128 + if i + 1 < |Encode(v)| then 128 else 0
    ensures v < Pow128(|Encode(v)|) && (|Encode(v)| > 1 ==> v >= Pow128(|Encode(v)| - 1))
  {
    hide Encode, Pow128;
    EncodeDigit(v, i);
    EncodeLength(v);
  }

  lemma {:induction false} EncodeDigit(v: nat, i: nat)
    requires i < |Encode(v)|
    ensures Encode(v)[i] == (v / Pow128(i)) % 128 + if i + 1 < |Encode(v)| then 128 else 0
  {
    hide Pow128;
    if i == 0 {
      assert Pow128(0) == 1 by { ShiftFacts(0); }
    } else {
      EncodeDigit(v / 128, i - 1);
      NextPower(i - 1);
      DivideTwice(v, Pow128(i - 1));
    }
  }

  lemma {:induction false} EncodeLength(v: nat)
    ensures v < Pow128(|Encode(v)|) && (|Encode(v)| > 1 ==> v >= Pow128(|Encode(v)| - 1))
  {
    hide Pow128;
    ShiftFacts(0);
    NextPower(0);
    if v >= 128 {
      var n := |Encode(v / 128)|;
      EncodeLength(v / 128);
      NextPower(n);
      if n > 1 { NextPower(n - 1); }
    }
  }

  lemma DivideTwice(v: nat, p: nat)
    requires p > 0
    ensures v / (128 * p) == (v / 128) / p
  {
    var q := (v / 128) / p;
    var r := (v / 128) % p;
    assert v / 128 == p * q + r;
    assert v == 128 * (v / 128) + v % 128;
    assert v == (128 * p) * q + (128 * r + v % 128);
    assert 128 * r + v % 128 < 128 * p;
    Quotient(v, 128 * p, q, 128 * r + v % 128);
  }

  lemma Steps(d: int, k: int)
    requires d > 0
    ensures k > 0 ==> d * k >= d
    ensures k < 0 ==> d * k <= -d
  {
    if k > 0 { assert d * k >= d; }
    if k < 0 { assert d * k <= -d; }
  }

  lemma Quotient(v: nat, d: nat, q: nat, r: nat)
    requires d > 0 && v == d * q + r && r < d
    ensures v / d == q
  {
    var k := v / d - q;
    assert d * (v / d) <= v < d * (v / d) + d;
    assert d * k == d * (v / d) - d * q;
    Steps(d, k);
  }
}
