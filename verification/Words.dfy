/** Bits and bytes of machine words: exclusive or, population count, Hamming distance and
    the little- and big-endian encodings. */
module Words {
  import opened Basics

  // ------------------------------------------------------------------------
  // Hamming distance
  // ------------------------------------------------------------------------

  /** The source's `x ^ y`. */
  function Xor(x: nat, y: nat): nat {
    if x == 0 && y == 0 then 0 else (if x % 2 == y % 2 then 0 else 1) + 2 * Xor(x / 2, y / 2)
  }

  /** The source's `count_ones`. */
  function CountOnes(x: nat): nat {
    if x == 0 then 0 else x % 2 + CountOnes(x / 2)
  }

  function BitDistance(x: nat, y: nat): nat {
    CountOnes(Xor(x, y))
  }

  /** Hamming distance over the words of two sequences, stopping at the shorter. */
  function Hamming(a: seq<nat>, b: seq<nat>): nat {
    if a == [] || b == [] then 0 else BitDistance(a[0], b[0]) + Hamming(a[1..], b[1..])
  }

  lemma BitDistanceStep(x: nat, y: nat)
    ensures BitDistance(x, y) == (if x % 2 == y % 2 then 0 else 1) + BitDistance(x / 2, y / 2)
  {
  }

  lemma {:induction false} BitDistanceZero(x: nat, y: nat)
    ensures BitDistance(x, y) == 0 <==> x == y
    decreases x + y
  {
    BitDistanceStep(x, y);
    if x > 0 || y > 0 {
      BitDistanceZero(x / 2, y / 2);
    }
  }

  lemma BitDistanceBit(x: nat, x': nat, y: nat, y': nat)
    requires x < 2 && y < 2
    ensures BitDistance(2 * x' + x, 2 * y' + y) == BitDistance(x, y) + BitDistance(x', y')
  {
    BitDistanceStep(2 * x' + x, 2 * y' + y);
    BitDistanceStep(x, y);
    BitDistanceZero(0, 0);
  }

  lemma BitDistancePair(x: nat, x': nat, y: nat, y': nat)
    requires x < 4 && y < 4
    ensures BitDistance(4 * x' + x, 4 * y' + y) == BitDistance(x, y) + BitDistance(x', y')
  {
    hide BitDistance;
    BitDistanceBit(x % 2, 2 * x' + x / 2, y % 2, 2 * y' + y / 2);
    BitDistanceBit(x / 2, x', y / 2, y');
    BitDistanceBit(x % 2, x / 2, y % 2, y / 2);
  }

  lemma BitDistanceNibble(x: nat, x': nat, y: nat, y': nat)
    requires x < 16 && y < 16
    ensures BitDistance(16 * x' + x, 16 * y' + y) == BitDistance(x, y) + BitDistance(x', y')
  {
    hide BitDistance;
    BitDistancePair(x % 4, 4 * x' + x / 4, y % 4, 4 * y' + y / 4);
    BitDistancePair(x / 4, x', y / 4, y');
    BitDistancePair(x % 4, x / 4, y % 4, y / 4);
  }

  /** The low eight bits and the rest contribute separately. */
  lemma BitDistanceByte(x: u8, x': nat, y: u8, y': nat)
    ensures BitDistance(256 * x' + x, 256 * y' + y) == BitDistance(x, y) + BitDistance(x', y')
  {
    BitDistanceNibble(x % 16, 16 * x' + x / 16, y % 16, 16 * y' + y / 16);
    BitDistanceNibble(x / 16, x', y / 16, y');
    BitDistanceNibble(x % 16, x / 16, y % 16, y / 16);
  }

  lemma {:induction false} HammingAppend(a: seq<nat>, b: seq<nat>, c: seq<nat>, d: seq<nat>)
    requires |a| == |b|
    ensures Hamming(a + c, b + d) == Hamming(a, b) + Hamming(c, d)
    decreases |a|
  {
    if a == [] {
      assert a + c == c && b + d == d;
    } else {
      assert (a + c)[1..] == a[1..] + c && (b + d)[1..] == b[1..] + d;
      HammingAppend(a[1..], b[1..], c, d);
    }
  }

  lemma {:induction false} HammingZero(a: seq<nat>, b: seq<nat>)
    requires |a| == |b|
    ensures Hamming(a, b) == 0 <==> a == b
    decreases |a|
  {
    if a != [] {
      BitDistanceZero(a[0], b[0]);
      HammingZero(a[1..], b[1..]);
      assert a == [a[0]] + a[1..] && b == [b[0]] + b[1..];
    }
  }

  // ------------------------------------------------------------------------
  // Distances count positions
  // ------------------------------------------------------------------------

  function Bit(x: nat, k: nat): nat {
    x / Pow2(k) % 2
  }

  lemma LowestBit(x: nat)
    ensures Bit(x, 0) == x % 2
  {
  }

  lemma BitAbove(x: nat, k: nat)
    ensures Bit(x, k + 1) == Bit(x / 2, k)
  {
    var d, h := Pow2(k), x / 2;
    var q, r := h / d, h % d;
    assert x == 2 * (d * q + r) + x % 2;
    assert 2 * (d * q + r) == (2 * d) * q + 2 * r;
    DivUnique(x, 2 * d, q, 2 * r + x % 2);
  }

  /** The bits, of w, in which two words differ. */
  function DifferingBits(x: nat, y: nat, w: nat): set<nat> {
    set k: nat | k < w && Bit(x, k) != Bit(y, k)
  }

  lemma {:induction false} SizeOfImage<S(!new), T(!new)>(f: S -> T, s: set<S>, image: set<T>)
    requires forall x, y :: x in s && y in s && f(x) == f(y) ==> x == y
    requires forall x :: x in s ==> f(x) in image
    requires forall y :: y in image ==> exists x :: x in s && f(x) == y
    ensures |image| == |s|
  {
    if s == {} {
      forall y
        ensures y !in image
      {
      }
      assert image == {};
    } else {
      var x :| x in s;
      forall y | y in image - {f(x)}
        ensures exists z :: z in s - {x} && f(z) == y
      {
        var z :| z in s && f(z) == y;
        assert z in s - {x};
      }
      SizeOfImage(f, s - {x}, image - {f(x)});
    }
  }

  lemma RaisedBits(x: nat, y: nat, w: nat)
    requires w > 0
    ensures |DifferingBits(x, y, w) - {0}| == |DifferingBits(x / 2, y / 2, w - 1)|
  {
    hide Bit;
    var all, above := DifferingBits(x, y, w), DifferingBits(x / 2, y / 2, w - 1);
    var raise := (k: nat) => k + 1;
    forall k: nat
      ensures k in above <==> raise(k) in all - {0}
    {
      BitAbove(x, k);
      BitAbove(y, k);
    }
    forall k | k in all - {0}
      ensures exists j: nat :: j in above && raise(j) == k
    {
      assert raise(k - 1) == k;
    }
    SizeOfImage(raise, above, all - {0});
  }

  lemma BitsOfHalves(x: nat, y: nat, w: nat)
    requires w > 0
    ensures |DifferingBits(x, y, w)| == |DifferingBits(x / 2, y / 2, w - 1)| + if x % 2 == y % 2 then 0 else 1
  {
    hide Bit;
    LowestBit(x);
    LowestBit(y);
    RaisedBits(x, y, w);
    var all := DifferingBits(x, y, w);
    assert all == (all - {0}) + (if x % 2 == y % 2 then {} else {0});
  }

  lemma NoBits(x: nat, y: nat)
    ensures DifferingBits(x, y, 0) == {}
  {
  }

  lemma {:induction false} BitDistanceCounts(x: nat, y: nat, w: nat)
    requires x < Pow2(w) && y < Pow2(w)
    ensures BitDistance(x, y) == |DifferingBits(x, y, w)|
  {
    hide DifferingBits, BitDistance;
    if w == 0 {
      BitDistanceZero(0, 0);
      NoBits(x, y);
    } else {
      BitDistanceCounts(x / 2, y / 2, w - 1);
      BitDistanceStep(x, y);
      BitsOfHalves(x, y, w);
    }
  }

  /** The byte and the bit in it, wherever two byte strings differ. */
  function DifferingPlaces(a: Bytes, b: Bytes): set<(nat, nat)> {
    set i: nat, k: nat | i < |a| && i < |b| && k < 8 && Bit(a[i], k) != Bit(b[i], k) :: (i, k)
  }

  lemma PlacesInFront(a: Bytes, b: Bytes, n: nat)
    requires n + 1 == |a| == |b|
    ensures |DifferingPlaces(a, b)| == |DifferingPlaces(a[..n], b[..n])| + |DifferingBits(a[n], b[n], 8)|
  {
    hide Bit;
    var front, last, all := DifferingPlaces(a[..n], b[..n]), DifferingBits(a[n], b[n], 8), DifferingPlaces(a, b);
    var tag := (k: nat) => (n, k);
    forall k: nat
      ensures k in last <==> tag(k) in all - front
    {
    }
    forall p | p in all - front
      ensures exists k: nat :: k in last && tag(k) == p
    {
      assert tag(p.1) == p;
    }
    SizeOfImage(tag, last, all - front);
    assert front <= all && all == front + (all - front);
  }

  lemma NoPlaces()
    ensures DifferingPlaces([], []) == {}
  {
  }

  lemma {:induction false} HammingCounts(a: Bytes, b: Bytes)
    requires |a| == |b|
    ensures Hamming(a, b) == |DifferingPlaces(a, b)|
    decreases |a|
  {
    hide BitDistance, Hamming, DifferingPlaces, DifferingBits, Pow2;
    if a == [] {
      NoPlaces();
      SmallHamming(0, 0);
    } else {
      var n := |a| - 1;
      HammingCounts(a[..n], b[..n]);
      HammingAppend(a[..n], b[..n], [a[n]], [b[n]]);
      SmallHamming(a[n], b[n]);
      assert a == a[..n] + [a[n]] && b == b[..n] + [b[n]];
      BytesBelowPow2();
      BitDistanceCounts(a[n], b[n], 8);
      PlacesInFront(a, b, n);
    }
  }

  lemma BytesBelowPow2()
    ensures Pow2(8) == 0x100
  {
    assert Pow2(4) == 16 && Pow2(8) == 16 * Pow2(4);
  }

  // ------------------------------------------------------------------------
  // Byte orders
  // ------------------------------------------------------------------------

  function Pow256(k: nat): (p: nat)
    ensures p >= 1
  {
    if k == 0 then 1 else 256 * Pow256(k - 1)
  }

  lemma Pow256Values()
    ensures Pow256(2) == 0x1_0000 && Pow256(4) == 0x1_0000_0000 && Pow256(8) == 0x1_0000_0000_0000_0000
  {
    assert Pow256(1) == 256 && Pow256(2) == 0x1_0000 && Pow256(3) == 0x100_0000 && Pow256(4) == 0x1_0000_0000;
    assert Pow256(5) == 0x100_0000_0000 && Pow256(6) == 0x1_0000_0000_0000 && Pow256(7) == 0x100_0000_0000_0000;
  }

  /** `to_le_bytes` for a k-byte word. */
  function ToLE(v: nat, k: nat): (b: Bytes)
    ensures |b| == k
  {
    if k == 0 then [] else [v % 256] + ToLE(v / 256, k - 1)
  }

  /** `from_le_bytes`. */
  function FromLE(b: Bytes): (v: nat)
    ensures v < Pow256(|b|)
  {
    if b == [] then 0 else b[0] + 256 * FromLE(b[1..])
  }

  /** `from_be_bytes`. */
  function FromBE(b: Bytes): (v: nat)
    ensures v < Pow256(|b|)
  {
    if b == [] then 0 else 256 * FromBE(b[..|b| - 1]) + b[|b| - 1]
  }

  lemma {:induction false} FromToLE(v: nat, k: nat)
    requires v < Pow256(k)
    ensures FromLE(ToLE(v, k)) == v
    decreases k
  {
    if k > 0 {
      FromToLE(v / 256, k - 1);
    }
  }

  lemma LowByte(x: u8, y: nat)
    ensures (x + 256 * y) % 256 == x && (x + 256 * y) / 256 == y
  {
  }

  lemma {:induction false} ToFromLE(b: Bytes)
    ensures ToLE(FromLE(b), |b|) == b
  {
    hide Pow256;
    if b != [] {
      LowByte(b[0], FromLE(b[1..]));
      ToFromLE(b[1..]);
      assert b == [b[0]] + b[1..];
    }
  }

  /** Byte i of the little-endian encoding is the i-th byte of the word. */
  lemma {:induction false} ToLEAt(v: nat, k: nat, i: nat)
    requires i < k
    ensures ToLE(v, k)[i] == v / Pow256(i) % 256
    decreases i
  {
    if i > 0 {
      ToLEAt(v / 256, k - 1, i - 1);
      DivDiv(v, Pow256(i - 1));
    }
  }

  lemma MultipleWithin(d: int, k: int)
    requires d > 0 && -d < d * k < d
    ensures k == 0
  {
    assert k >= 1 ==> d * k >= d;
    assert k <= -1 ==> d * k <= -d;
  }

  lemma DivUnique(a: nat, d: nat, q: nat, r: nat)
    requires a == d * q + r && r < d
    ensures a / d == q && a % d == r
  {
    var q', r' := a / d, a % d;
    assert a == d * q' + r';
    assert d * (q - q') == d * q - d * q';
    MultipleWithin(d, q - q');
  }

  lemma DivDiv(v: nat, d: nat)
    requires d >= 1
    ensures v / 256 / d == v / (256 * d)
  {
    var w := v / 256;
    var q, r := w / d, w % d;
    assert v == 256 * (d * q + r) + v % 256;
    assert 256 * (d * q + r) == (256 * d) * q + 256 * r;
    DivUnique(v, 256 * d, q, 256 * r + v % 256);
  }

  /** Distance over words is distance over their bytes, in either byte order. */
  lemma {:induction false} HammingLE(a: Bytes, b: Bytes)
    requires |a| == |b|
    ensures BitDistance(FromLE(a), FromLE(b)) == Hamming(a, b)
    decreases |a|
  {
    if a == [] {
      BitDistanceZero(0, 0);
    } else {
      BitDistanceByte(a[0], FromLE(a[1..]), b[0], FromLE(b[1..]));
      HammingLE(a[1..], b[1..]);
    }
  }

  lemma BigEndianEnd(a: Bytes)
    requires a != []
    ensures FromBE(a) == 256 * FromBE(a[..|a| - 1]) + a[|a| - 1]
  {
  }

  lemma SmallHamming(x: nat, y: nat)
    ensures Hamming([], []) == 0 && Hamming([x], [y]) == BitDistance(x, y) && FromBE([]) == 0
  {
  }

  lemma {:induction false} HammingBE(a: Bytes, b: Bytes)
    requires |a| == |b|
    ensures BitDistance(FromBE(a), FromBE(b)) == Hamming(a, b)
    decreases |a|
  {
    hide BitDistance, FromBE, Hamming;
    if a == [] {
      SmallHamming(0, 0);
      BitDistanceZero(0, 0);
    } else {
      var n := |a| - 1;
      BigEndianEnd(a);
      BigEndianEnd(b);
      BitDistanceByte(a[n], FromBE(a[..n]), b[n], FromBE(b[..n]));
      HammingBE(a[..n], b[..n]);
      HammingAppend(a[..n], b[..n], [a[n]], [b[n]]);
      SmallHamming(a[n], b[n]);
      assert a == a[..n] + [a[n]] && b == b[..n] + [b[n]];
    }
  }

  /** Big-endian is little-endian read from the other end. */
  lemma {:induction false} BigEndianReverses(b: Bytes)
    ensures FromBE(b) == FromLE(seq(|b|, i requires 0 <= i < |b| => b[|b| - 1 - i]))
  {
    if b != [] {
      var n := |b| - 1;
      BigEndianReverses(b[..n]);
      var reversed: Bytes := seq(|b|, i requires 0 <= i < |b| => b[|b| - 1 - i]);
      assert reversed[1..] == seq(n, i requires 0 <= i < n => b[..n][n - 1 - i]);
    }
  }

  lemma {:induction false} FromLEPadding(b: Bytes, zeros: nat)
    ensures FromLE(b + seq(zeros, _ => 0)) == FromLE(b)
    decreases |b| + zeros
  {
    var padded: Bytes := b + seq(zeros, _ => 0);
    if b != [] {
      assert padded[1..] == b[1..] + seq(zeros, _ => 0);
      FromLEPadding(b[1..], zeros);
    } else if zeros > 0 {
      assert padded[1..] == [] + seq(zeros - 1, _ => 0);
      FromLEPadding([], zeros - 1);
    }
  }
}
