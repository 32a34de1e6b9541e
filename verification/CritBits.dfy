/** Keys as byte strings, the positions at which two keys can differ, and the packed critical
    bits by which the two crit-bit trees address those positions. */
module CritBits {

  type Key = seq<bv8>

  /** Bits 0 to 7 of a byte, most significant first, then 8: whether the byte exists at all. */
  datatype Pos = Pos(index: nat, bit: nat)

  const EXISTS: nat := 8

  ghost predicate Before(p: Pos, q: Pos) {
    p.index < q.index || (p.index == q.index && p.bit < q.bit)
  }

  /** The r-th bit of a byte, as a byte with only that bit set; none for r = 8. */
  function BitMask(r: nat): bv8 {
    if r == 0 then 0x80 else if r == 1 then 0x40 else if r == 2 then 0x20 else if r == 3 then 0x10
    else if r == 4 then 0x08 else if r == 5 then 0x04 else if r == 6 then 0x02 else if r == 7 then 0x01
    else 0
  }

  ghost predicate HasBit(x: bv8, r: nat) {
    x & BitMask(r) != 0
  }

  /** What a key has at a position; past its end it has nothing. */
  ghost predicate Bit(key: Key, p: Pos) {
    p.index < |key| && (p.bit >= EXISTS || HasBit(key[p.index], p.bit))
  }

  /** p is the first position at which the keys differ. */
  ghost predicate Splits(a: Key, b: Key, p: Pos) {
    p.bit <= EXISTS && Bit(a, p) != Bit(b, p) && forall q: Pos :: q.bit <= EXISTS && Before(q, p) ==> Bit(a, q) == Bit(b, q)
  }

  /** Lexicographic order. */
  ghost predicate Less(a: Key, b: Key) {
    exists i: nat :: LessAt(a, b, i)
  }

  ghost predicate LessAt(a: Key, b: Key, i: nat) {
    i <= |a| && i < |b| && a[..i] == b[..i] && (i == |a| || a[i] < b[i])
  }

  /** Nothing goes before the empty key, which goes before every other; otherwise the first bytes decide, or the rest does. */
  lemma LessByBytes(a: Key, b: Key)
    ensures a == [] ==> (Less(a, b) <==> b != [])
    ensures b == [] ==> !Less(a, b)
    ensures a != [] && b != [] ==> (Less(a, b) <==> a[0] < b[0] || (a[0] == b[0] && Less(a[1..], b[1..])))
  {
    if a == [] && b != [] {
      assert LessAt(a, b, 0);
    }
    if a != [] && b != [] {
      if i: nat :| LessAt(a, b, i) {
        assert i > 0 ==> a[..i][0] == b[..i][0] && a[1..][..i - 1] == a[..i][1..] && b[1..][..i - 1] == b[..i][1..];
        assert i > 0 ==> LessAt(a[1..], b[1..], i - 1);
      }
      if a[0] < b[0] {
        assert LessAt(a, b, 0);
      }
      if i: nat :| a[0] == b[0] && LessAt(a[1..], b[1..], i) {
        assert a[..i + 1] == [a[0]] + a[1..][..i] && b[..i + 1] == [b[0]] + b[1..][..i];
        assert LessAt(a, b, i + 1);
      }
    }
  }

  lemma LessIsStrict(a: Key, b: Key)
    requires Less(a, b)
    ensures a != b
  {
  }

  // ----- Bits of a byte -----

  /** The most significant bit of a byte, by smearing it downwards. */
  function Msb8(x: bv8): bv8 {
    var a := x | (x >> 1);
    var b := a | (a >> 2);
    var c := b | (b >> 4);
    c & !(c >> 1)
  }

  lemma TopBit(d: bv8) returns (r: nat)
    requires d != 0
    ensures r < 8 && HasBit(d, r) && forall q: nat :: q < r ==> !HasBit(d, q)
  {
    r := if d & 0x80 != 0 then 0 else if d & 0x40 != 0 then 1 else if d & 0x20 != 0 then 2 else if d & 0x10 != 0 then 3
         else if d & 0x08 != 0 then 4 else if d & 0x04 != 0 then 5 else if d & 0x02 != 0 then 6 else 7;
    if r == 7 {
      assert d == d & 0x01;
    }
  }

  lemma MsbIsTopBit(d: bv8, r: nat)
    requires r < 8 && HasBit(d, r) && forall q: nat :: q < r ==> !HasBit(d, q)
    ensures Msb8(d) == BitMask(r)
  {
    if r > 0 { assert !HasBit(d, 0); }
    if r > 1 { assert !HasBit(d, 1); }
    if r > 2 { assert !HasBit(d, 2); }
    if r > 3 { assert !HasBit(d, 3); }
    if r > 4 { assert !HasBit(d, 4); }
    if r > 5 { assert !HasBit(d, 5); }
    if r > 6 { assert !HasBit(d, 6); }
  }

  lemma DifferenceHasBit(x: bv8, y: bv8, m: bv8)
    ensures (x ^ y) & m == (x & m) ^ (y & m)
  {
  }

  lemma XorIsZero(x: bv8, y: bv8)
    ensures x ^ y == 0 <==> x == y
  {
  }

  lemma DiffersAt(x: bv8, y: bv8, r: nat)
    ensures HasBit(x ^ y, r) == (HasBit(x, r) != HasBit(y, r))
  {
    var m := BitMask(r);
    DifferenceHasBit(x, y, m);
    assert r == 0 || r == 1 || r == 2 || r == 3 || r == 4 || r == 5 || r == 6 || r == 7 || m == 0;
  }

  /** The first bit at which two bytes differ is the most significant bit of their difference. */
  lemma FirstBit(x: bv8, y: bv8) returns (r: nat)
    requires x != y
    ensures r < 8 && Msb8(x ^ y) == BitMask(r)
    ensures HasBit(x, r) != HasBit(y, r)
    ensures forall q: nat :: q < r ==> HasBit(x, q) == HasBit(y, q)
  {
    hide HasBit, Msb8;
    XorIsZero(x, y);
    r := TopBit(x ^ y);
    MsbIsTopBit(x ^ y, r);
    forall q: nat | q <= r
      ensures HasBit(x ^ y, q) == (HasBit(x, q) != HasBit(y, q))
    {
      DiffersAt(x, y, q);
    }
  }

  lemma SameBits(x: bv8, y: bv8)
    requires forall r: nat :: r < 8 ==> HasBit(x, r) == HasBit(y, r)
    ensures x == y
  {
    if x != y {
      var r := FirstBit(x, y);
    }
  }

  /** The byte with the first differing bit set is the larger one. */
  lemma FirstBitOrders(x: bv8, y: bv8, r: nat)
    requires r < 8 && !HasBit(x, r) && HasBit(y, r)
    requires forall q: nat :: q < r ==> HasBit(x, q) == HasBit(y, q)
    ensures x < y
  {
    var s := FirstBit(x, y);
    assert s == r;
    MsbOrders(x, y);
  }

  lemma MsbOrders(x: bv8, y: bv8)
    requires y & Msb8(x ^ y) != 0 && x & Msb8(x ^ y) == 0
    ensures x < y
  {
  }

  /** Whoever has the first position at which two keys differ comes last. */
  lemma SplitOrders(a: Key, b: Key, p: Pos)
    requires Splits(a, b, p) && Bit(b, p)
    ensures Less(a, b)
  {
    var i := p.index;
    assert |a| >= i by {
      if |a| < i {
        assert Bit(b, Pos(|a|, EXISTS)) && !Bit(a, Pos(|a|, EXISTS));
        assert Before(Pos(|a|, EXISTS), p);
      }
    }
    forall j: nat | j < i
      ensures a[j] == b[j]
    {
      forall r: nat | r < 8
        ensures HasBit(a[j], r) == HasBit(b[j], r)
      {
        assert Before(Pos(j, r), p);
        assert Bit(a, Pos(j, r)) == Bit(b, Pos(j, r));
      }
      SameBits(a[j], b[j]);
    }
    assert a[..i] == b[..i];
    if i < |a| {
      forall q: nat | q < p.bit
        ensures HasBit(a[i], q) == HasBit(b[i], q)
      {
        assert Before(Pos(i, q), p);
        assert Bit(a, Pos(i, q)) == Bit(b, Pos(i, q));
      }
      FirstBitOrders(a[i], b[i], p.bit);
    }
    assert LessAt(a, b, i);
  }

  /** Keys that are the same up to byte i. */
  lemma SameUpTo(a: Key, b: Key, i: nat, q: Pos)
    requires i <= |a| && i <= |b| && a[..i] == b[..i] && q.index < i
    ensures Bit(a, q) == Bit(b, q)
  {
    assert a[q.index] == a[..i][q.index] == b[q.index];
  }

  /** Where two keys first differ, when both have the byte. */
  lemma SplitAtByte(a: Key, b: Key, i: nat) returns (p: Pos)
    requires i < |a| && i < |b| && a[..i] == b[..i] && a[i] != b[i]
    ensures p.index == i && p.bit < EXISTS && Msb8(a[i] ^ b[i]) == BitMask(p.bit) && Splits(a, b, p)
  {
    hide HasBit, Msb8;
    var r := FirstBit(a[i], b[i]);
    p := Pos(i, r);
    forall q: Pos | q.bit <= EXISTS && Before(q, p)
      ensures Bit(a, q) == Bit(b, q)
    {
      if q.index < i {
        SameUpTo(a, b, i, q);
      }
    }
  }

  /** Where a proper prefix and the longer key first differ. */
  lemma SplitAtEnd(a: Key, b: Key) returns (p: Pos)
    requires |a| < |b| && a == b[..|a|]
    ensures p.index == |a| && p.bit <= EXISTS && Msb8(b[|a|]) == BitMask(p.bit) && Splits(a, b, p)
    ensures b[|a|] != 0 ==> p.bit < EXISTS
  {
    var i := |a|;
    var byte := b[i];
    if byte == 0 {
      p := Pos(i, EXISTS);
      NoBits();
    } else {
      var r := FirstBit(byte, 0);
      NoBits();
      assert byte ^ 0 == byte;
      p := Pos(i, r);
    }
    forall q: Pos | q.bit <= EXISTS && Before(q, p)
      ensures Bit(a, q) == Bit(b, q)
    {
      if q.index < i {
        assert a[..i] == a;
        SameUpTo(a, b, i, q);
      }
    }
  }

  lemma NoBits()
    ensures Msb8(0) == 0 && forall r: nat :: !HasBit(0, r)
  {
    forall r: nat
      ensures !HasBit(0, r)
    {
      assert 0 & BitMask(r) == 0;
    }
  }

  lemma SplitsEitherWay(a: Key, b: Key, p: Pos)
    requires Splits(a, b, p)
    ensures Splits(b, a, p)
  {
  }

  /** Keys that differ do so first at a single position. */
  lemma SplitIsUnique(a: Key, b: Key, p: Pos, q: Pos)
    requires Splits(a, b, p) && Splits(a, b, q)
    ensures p == q
  {
    assert !Before(p, q) && !Before(q, p);
  }
}
