/**
 24-bit wrapping sequence numbers (raknet/src/protocol/types/sequence.rs).

 The comparison is serial-number arithmetic in the sense of section 3.2 of RFC 1982 with 24 bits.
 The lemmas relate it to the unwrapped integers that the numbers stand for.
*/
module Sequence24 {
  const MODULO: int := 0x100_0000
  const MASK: int := 0xFF_FFFF
  const HALF: int := 0x80_0000

  type Seq24 = n: nat | n < 0x100_0000

  datatype Comparison = Less | Equal | Greater

  /** `v & MASK`: the low 24 bits. */
  function New(v: nat): Seq24 {
    if v < MODULO then v else v % MODULO
  }

  function Next(s: Seq24): Seq24 {
    New(s + 1)
  }

  function Prev(s: Seq24): Seq24 {
    if s == 0 then MASK else s - 1
  }

  function DistanceTo(s: Seq24, newer: Seq24): nat {
    if newer >= s then newer - s else (MODULO - s) + newer
  }

  function Cmp(a: Seq24, b: Seq24): Comparison {
    var d := a - b;
    if d == 0 then Equal
    else if (d > 0 && d < HALF) || (d < 0 && d < -HALF) then Greater
    else Less
  }

  predicate Gt(a: Seq24, b: Seq24) {
    Cmp(a, b) == Greater
  }

  predicate Lt(a: Seq24, b: Seq24) {
    Cmp(a, b) == Less
  }

  predicate Ge(a: Seq24, b: Seq24) {
    Cmp(a, b) != Less
  }

  /** `std::cmp::max`: the second argument unless the first is strictly greater. */
  function Max(a: Seq24, b: Seq24): Seq24 {
    if Gt(a, b) then a else b
  }

  /** `std::cmp::min`: the first argument unless it is strictly greater. */
  function Min(a: Seq24, b: Seq24): Seq24 {
    if Gt(a, b) then b else a
  }

  /** Rust's `%` on signed integers truncates toward zero. */
  function TruncatedRemainder(a: int): int {
    if a >= 0 then a % MODULO else -((-a) % MODULO)
  }

  /** `Add<i32>`; the sum must fit an i32. */
  function Add(s: Seq24, rhs: int): Seq24
    requires -0x8000_0000 <= rhs && s + rhs < 0x8000_0000
  {
    var value := TruncatedRemainder(s + rhs);
    New(if value < 0 then value + MODULO else value)
  }

  // ----- unwrapped integers -----

  /** The sequence number that stands for the unwrapped integer `u`. */
  function Wrap(u: int): Seq24 {
    u % MODULO
  }

  /** The number `i` steps after `s`. */
  function Ahead(s: Seq24, i: nat): (r: Seq24)
    requires i < MODULO
    ensures DistanceTo(s, r) == i
  {
    if s + i < MODULO then s + i else s + i - MODULO
  }

  /** `Next` taken `n` times. */
  function Steps(s: Seq24, n: nat): Seq24 {
    if n == 0 then s else Next(Steps(s, n - 1))
  }

  lemma AheadIsWrap(s: Seq24, i: nat)
    requires i < MODULO
    ensures Ahead(s, i) == Wrap(s + i)
  {
  }

  /** A distance determines the number. */
  lemma DistanceDetermines(s: Seq24, t: Seq24)
    ensures Ahead(s, DistanceTo(s, t)) == t
  {
  }

  lemma WrapSteps(u: int)
    ensures Next(Wrap(u)) == Wrap(u + 1)
    ensures Prev(Wrap(u)) == Wrap(u - 1)
  {
  }

  lemma DistanceIsDifference(u: int, v: int)
    ensures DistanceTo(Wrap(u), Wrap(v)) == (v - u) % MODULO
  {
    var qu, qv := u / MODULO, v / MODULO;
    assert u == qu * MODULO + Wrap(u) && v == qv * MODULO + Wrap(v);
    if Wrap(v) >= Wrap(u) {
      assert v - u == (qv - qu) * MODULO + DistanceTo(Wrap(u), Wrap(v));
    } else {
      assert v - u == (qv - qu - 1) * MODULO + DistanceTo(Wrap(u), Wrap(v));
    }
  }

  /** `a > b` exactly when `b` reaches `a` going forward by less than half the circle;
      at exactly half the circle each of the two is less than the other. */
  lemma CmpIsForwardDistance(a: Seq24, b: Seq24)
    ensures Gt(a, b) <==> 0 < DistanceTo(b, a) < HALF
    ensures Lt(a, b) <==> 0 < DistanceTo(a, b) <= HALF
    ensures Cmp(a, b) == Equal <==> a == b
    ensures Lt(a, b) && Lt(b, a) <==> DistanceTo(a, b) == HALF
  {
  }

  /** Within half the circle the serial order is the order of the unwrapped integers. */
  lemma CmpMatchesIntegers(u: int, v: int)
    requires -HALF < u - v < HALF
    ensures Gt(Wrap(u), Wrap(v)) <==> u > v
    ensures Lt(Wrap(u), Wrap(v)) <==> u < v
    ensures Wrap(u) == Wrap(v) <==> u == v
    ensures Max(Wrap(u), Wrap(v)) == Wrap(if u > v then u else v)
    ensures Min(Wrap(u), Wrap(v)) == Wrap(if u > v then v else u)
  {
    DistanceIsDifference(u, v);
    DistanceIsDifference(v, u);
    CmpIsForwardDistance(Wrap(u), Wrap(v));
  }

  /** The numbers reached from `b` in fewer than HALF steps are linearly ordered by their distance from `b`. */
  lemma WindowOrder(b: Seq24, x: Seq24, y: Seq24)
    requires DistanceTo(b, x) < HALF && DistanceTo(b, y) < HALF
    ensures Gt(x, y) <==> DistanceTo(b, x) > DistanceTo(b, y)
    ensures Lt(x, y) <==> DistanceTo(b, x) < DistanceTo(b, y)
    ensures x == y <==> DistanceTo(b, x) == DistanceTo(b, y)
    ensures DistanceTo(b, x) <= DistanceTo(b, y) ==> DistanceTo(x, y) == DistanceTo(b, y) - DistanceTo(b, x)
  {
  }

  /** Beyond half the circle the order is not transitive: three numbers can form a cycle. */
  lemma OrderIsCyclicOutsideTheWindow()
    ensures Lt(0, 0x60_0000) && Lt(0x60_0000, 0xC0_0000) && Lt(0xC0_0000, 0)
  {
  }

  /** Adding an offset and measuring the distance undo each other. */
  lemma AddDistanceInverse(s: Seq24, t: Seq24, i: nat)
    requires i < MODULO
    ensures DistanceTo(s, Add(s, i)) == i
    ensures Add(s, DistanceTo(s, t)) == t
    ensures Add(s, i) == Wrap(s + i)
  {
  }

  lemma NextDistance(s: Seq24, t: Seq24)
    ensures t != s ==> DistanceTo(Next(s), t) == DistanceTo(s, t) - 1
    ensures DistanceTo(Next(s), s) == MODULO - 1
    ensures DistanceTo(s, t) + 1 < MODULO ==> DistanceTo(s, Next(t)) == DistanceTo(s, t) + 1
    ensures DistanceTo(s, t) == MODULO - 1 ==> Next(t) == s
  {
  }
}
