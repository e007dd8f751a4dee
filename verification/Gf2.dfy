// Polynomials over the two-element field as bit strings, highest power first, and division
// by the generator of CRC-32.
module Gf2 {

  type Bits = seq<bool>

  // x^32 + x^26 + x^23 + x^22 + x^16 + x^12 + x^11 + x^10 + x^8 + x^7 + x^5 + x^4 + x^2 + x + 1
  const GENERATOR: Bits := [
    true,
    false, false, false, false, false, true, false, false, true, true, false, false, false, false, false, true,
    false, false, false, true, true, true, false, true, true, false, true, true, false, true, true, true]

  function Zeros(n: nat): (r: Bits)
    ensures |r| == n
  {
    seq(n, i => false)
  }

  function Xor(a: Bits, b: Bits): (r: Bits)
    requires |a| == |b|
    ensures |r| == |a|
  {
    seq(|a|, i requires 0 <= i < |a| => a[i] != b[i])
  }

  // The generator, or zero.
  function Multiple(b: bool): (r: Bits)
    ensures |r| == 33
  {
    if b then GENERATOR else Zeros(33)
  }

  // The product of a quotient and the generator.
  function TimesG(q: Bits): (r: Bits)
    ensures |r| == |q| + 32
  {
    if q == [] then Zeros(32)
    else Xor(Multiple(q[0]) + Zeros(|q| - 1), [false] + TimesG(q[1..]))
  }

  function Combined(q: Bits, r: Bits): (m: Bits)
    requires |r| == 32
    ensures |m| == |q| + 32
  {
    Xor(TimesG(q), Zeros(|q|) + r)
  }

  // m is some multiple of the generator plus r, where r has degree less than 32.
  ghost predicate Remainder(m: Bits, r: Bits) {
    |r| == 32 && exists q: Bits :: m == Combined(q, r)
  }

  lemma SameBits(a: Bits, b: Bits)
    requires |a| == |b| && forall i :: 0 <= i < |a| ==> a[i] == b[i]
    ensures a == b
  {
  }

  lemma XorRegroup(a: Bits, b: Bits, c: Bits)
    requires |a| == |b| == |c|
    ensures Xor(a, Xor(b, c)) == Xor(Xor(a, b), c)
  {
  }

  lemma XorFront(a: Bits, b: Bits)
    requires |a| == |b|
    ensures [false] + Xor(a, b) == Xor([false] + a, [false] + b)
  {
  }

  lemma XorBack(a: Bits, b: Bits, c: bool)
    requires |a| == |b|
    ensures Xor(a, b) + [c] == Xor(a + [false], b + [c])
  {
  }

  lemma {:induction false} TimesAppend(q: Bits, b: bool)
    ensures TimesG(q + [b]) == Xor(TimesG(q) + [false], Zeros(|q|) + Multiple(b))
  {
    if q == [] {
      assert [] + [b] == [b] && [b][1..] == [];
      SameBits(TimesG([b]), Xor(TimesG([]) + [false], Zeros(0) + Multiple(b)));
    } else {
      TimesAppend(q[1..], b);
      TimesCons(q + [b], q[0], q[1..] + [b]);
      var n, tail, first := |q|, TimesG(q[1..]), Multiple(q[0]);
      XorFront(tail + [false], Zeros(n - 1) + Multiple(b));
      Aligned(n, tail, first, Multiple(b));
      XorRegroup(first + Zeros(n), [false] + (tail + [false]), Zeros(n) + Multiple(b));
      XorBack(first + Zeros(n - 1), [false] + tail, false);
    }
  }

  // The product, from the leading bit of a quotient.
  lemma TimesCons(q: Bits, b: bool, rest: Bits)
    requires q == [b] + rest
    ensures TimesG(q) == Xor(Multiple(b) + Zeros(|rest|), [false] + TimesG(rest))
  {
  }

  lemma Aligned(n: nat, tail: Bits, first: Bits, last: Bits)
    requires n > 0
    ensures (first + Zeros(n - 1)) + [false] == first + Zeros(n)
    ensures ([false] + tail) + [false] == [false] + (tail + [false])
    ensures [false] + (Zeros(n - 1) + last) == Zeros(n) + last
  {
  }

  // One more bit behind a message: its remainder shifts, and is reduced if it overflows.
  function NextRemainder(r: Bits, b: bool): (s: Bits)
    requires |r| == 32
    ensures |s| == 32
  {
    Xor(r[1..] + [b], Multiple(r[0])[1..])
  }

  lemma AppendBit(m: Bits, r: Bits, b: bool)
    requires Remainder(m, r)
    ensures Remainder(m + [b], NextRemainder(r, b))
  {
    var q :| m == Combined(q, r);
    var n, next := |q|, NextRemainder(r, b);
    TimesAppend(q, r[0]);
    Reduced(n, r, b);
    XorRegroup(TimesG(q) + [false], Zeros(n) + Multiple(r[0]), Zeros(n + 1) + next);
    XorBack(TimesG(q), Zeros(n) + r, b);
    assert m + [b] == Combined(q + [r[0]], next);
  }

  lemma Reduced(n: nat, r: Bits, b: bool)
    requires |r| == 32
    ensures Xor(Zeros(n) + Multiple(r[0]), Zeros(n + 1) + NextRemainder(r, b)) == (Zeros(n) + r) + [b]
  {
  }

  function ZerosFed(r: Bits, n: nat): (s: Bits)
    requires |r| == 32
    ensures |s| == 32
    decreases n
  {
    if n == 0 then r else NextRemainder(ZerosFed(r, n - 1), false)
  }

  lemma {:induction false} AppendZeros(m: Bits, r: Bits, n: nat)
    requires Remainder(m, r)
    ensures Remainder(m + Zeros(n), ZerosFed(r, n))
  {
    if n == 0 {
      assert m + Zeros(0) == m;
    } else {
      AppendZeros(m, r, n - 1);
      AppendBit(m + Zeros(n - 1), ZerosFed(r, n - 1), false);
      assert (m + Zeros(n - 1)) + [false] == m + Zeros(n);
    }
  }

  // Adding below x^32 adds to the remainder.
  lemma AddLow(m: Bits, r: Bits, d: Bits)
    requires Remainder(m + Zeros(32), r) && |d| == 32
    ensures Remainder(m + d, Xor(r, d))
  {
    var q :| m + Zeros(32) == Combined(q, r);
    forall i | 0 <= i < |m| + 32 ensures (m + d)[i] == Combined(q, Xor(r, d))[i] {
      assert (m + Zeros(32))[i] == Combined(q, r)[i];
    }
    SameBits(m + d, Combined(q, Xor(r, d)));
  }

  lemma SmallRemainder(r: Bits)
    requires |r| == 32
    ensures Remainder(r, r)
  {
    SameBits(r, Combined([], r));
  }

  // Division has one result.
  lemma {:induction false} QuotientUnique(q: Bits, r: Bits, p: Bits, s: Bits)
    requires |r| == |s| == 32 && Combined(q, r) == Combined(p, s)
    ensures q == p && r == s
    decreases |q|
  {
    assert |q| == |p|;
    if q == [] {
      assert forall i :: 0 <= i < 32 ==> Combined(q, r)[i] == r[i] && Combined(p, s)[i] == s[i];
      SameBits(r, s);
    } else {
      assert Combined(q, r)[0] == q[0] && Combined(p, s)[0] == p[0];
      CombinedTail(q, r);
      CombinedTail(p, s);
      QuotientUnique(q[1..], r, p[1..], s);
      assert q == [q[0]] + q[1..] && p == [p[0]] + p[1..];
    }
  }

  lemma XorTail(a: Bits, b: Bits)
    requires |a| == |b| > 0
    ensures Xor(a, b)[1..] == Xor(a[1..], b[1..])
  {
  }

  lemma XorCancel(a: Bits, b: Bits, c: Bits)
    requires |a| == |b| == |c|
    ensures Xor(Xor(Xor(a, b), c), a) == Xor(b, c)
  {
  }

  lemma CombinedTail(q: Bits, r: Bits)
    requires |r| == 32 && q != []
    ensures Combined(q[1..], r) == Xor(Combined(q, r)[1..], (Multiple(q[0]) + Zeros(|q| - 1))[1..])
  {
    var first, tail := Multiple(q[0]) + Zeros(|q| - 1), TimesG(q[1..]);
    XorTail(Xor(first, [false] + tail), Zeros(|q|) + r);
    XorTail(first, [false] + tail);
    assert ([false] + tail)[1..] == tail && (Zeros(|q|) + r)[1..] == Zeros(|q| - 1) + r;
    XorCancel(first[1..], tail, Zeros(|q| - 1) + r);
  }

  lemma RemainderUnique(m: Bits, r: Bits, s: Bits)
    requires Remainder(m, r) && Remainder(m, s)
    ensures r == s
  {
    var q :| m == Combined(q, r);
    var p :| m == Combined(p, s);
    QuotientUnique(q, r, p, s);
  }
}
