/**
 There are more block hashes than places for them: under every addressing, some nine
 hashes share one fingerprint and one primary bucket.
 */
module Collisions {
  import opened Arithmetic
  import opened CuckooFilter

  // ---------- single bits ----------

  function Mask16(j: nat): bv16
    requires j < 16
  {
    if j == 0 then 0x1 else if j == 1 then 0x2 else if j == 2 then 0x4 else if j == 3 then 0x8
    else if j == 4 then 0x10 else if j == 5 then 0x20 else if j == 6 then 0x40 else if j == 7 then 0x80
    else if j == 8 then 0x100 else if j == 9 then 0x200 else if j == 10 then 0x400 else if j == 11 then 0x800
    else if j == 12 then 0x1000 else if j == 13 then 0x2000 else if j == 14 then 0x4000 else 0x8000
  }

  predicate Apart16(x: bv16, y: bv16) { x & y == 0 }

  lemma MasksApart16(j: nat, k: nat)
    requires j < 16 && k < 16 && j != k
    ensures Apart16(Mask16(j), Mask16(k))
  {}

  lemma NonZero16(j: nat)
    requires j < 16
    ensures Mask16(j) != 0
  {}

  function Bit(f: Fp, j: nat): (b: nat)
    requires j < 16
    ensures b < 2
  {
    if f & Mask16(j) == 0 then 0 else 1
  }

  /** A fingerprint is its bits. */
  lemma SameBits(f: Fp, g: Fp)
    requires forall j :: 0 <= j < 16 ==> Bit(f, j) == Bit(g, j)
    ensures f == g
  {
    assert Bit(f, 0) == Bit(g, 0) && Bit(f, 1) == Bit(g, 1) && Bit(f, 2) == Bit(g, 2) && Bit(f, 3) == Bit(g, 3);
    assert Bit(f, 4) == Bit(g, 4) && Bit(f, 5) == Bit(g, 5) && Bit(f, 6) == Bit(g, 6) && Bit(f, 7) == Bit(g, 7);
    assert Bit(f, 8) == Bit(g, 8) && Bit(f, 9) == Bit(g, 9) && Bit(f, 10) == Bit(g, 10) && Bit(f, 11) == Bit(g, 11);
    assert Bit(f, 12) == Bit(g, 12) && Bit(f, 13) == Bit(g, 13) && Bit(f, 14) == Bit(g, 14) && Bit(f, 15) == Bit(g, 15);
  }

  /** Sixteen bits at the given third of a 48-bit word. */
  function Widen(x: bv16, third: nat): bv64
    requires third < 3
  {
    if third == 0 then x as bv64 else if third == 1 then (x as bv64) << 16 else (x as bv64) << 32
  }

  predicate Apart(v: bv64, w: bv64) { v & w == 0 }

  lemma WidenApart(x: bv16, y: bv16, s: nat, t: nat)
    requires s < 3 && t < 3 && (s != t || Apart16(x, y))
    ensures Apart(Widen(x, s), Widen(y, t))
  {
    hide Apart, Apart16, Widen;
    if s == t {
      SameThirdApart(x, y, s);
    } else if s < t {
      ThirdsApart(x, y, s, t);
    } else {
      ThirdsApart(y, x, t, s);
      ApartSymmetric(Widen(y, t), Widen(x, s));
    }
  }

  lemma ApartSymmetric(v: bv64, w: bv64)
    ensures Apart(v, w) <==> Apart(w, v)
  {}

  lemma ThirdsApart(x: bv16, y: bv16, s: nat, t: nat)
    requires s < t < 3
    ensures Apart(Widen(x, s), Widen(y, t))
  {}

  lemma SameThirdApart(x: bv16, y: bv16, s: nat)
    requires s < 3 && Apart16(x, y)
    ensures Apart(Widen(x, s), Widen(y, s))
  {
    hide Apart, Apart16, Widen;
    if s == 0 { Widen0(x, y); } else if s == 1 { Widen1(x, y); } else { Widen2(x, y); }
  }

  lemma Widen0(x: bv16, y: bv16)
    requires Apart16(x, y)
    ensures Apart(Widen(x, 0), Widen(y, 0))
  {}

  lemma Widen1(x: bv16, y: bv16)
    requires Apart16(x, y)
    ensures Apart(Widen(x, 1), Widen(y, 1))
  {}

  lemma Widen2(x: bv16, y: bv16)
    requires Apart16(x, y)
    ensures Apart(Widen(x, 2), Widen(y, 2))
  {}

  lemma WidenNonZero(x: bv16, s: nat)
    requires s < 3 && x != 0
    ensures Widen(x, s) != 0
  {}

  /** Bit `j` of a 48-bit word. */
  function Mask(j: nat): bv64
    requires j < 48
  {
    Widen(Mask16(j % 16), j / 16)
  }

  lemma MasksApart(j: nat, k: nat)
    requires j < 48 && k < 48 && j != k
    ensures Apart(Mask(j), Mask(k))
  {
    hide Mask16, Widen, Apart, Apart16;
    if j % 16 != k % 16 { MasksApart16(j % 16, k % 16); }
    WidenApart(Mask16(j % 16), Mask16(k % 16), j / 16, k / 16);
  }

  lemma MaskNonZero(j: nat)
    requires j < 48
    ensures Mask(j) != 0
  {
    hide Mask16, Widen;
    NonZero16(j % 16);
    WidenNonZero(Mask16(j % 16), j / 16);
  }

  // ---------- many hashes ----------

  function Or(w: bv64, m: bv64): bv64 { w | m }

  function Clear(w: bv64, m: bv64): bv64 { w & !m }

  function WithMask(h: Hash, m: bv64): Hash { Hash(Or(h.word, m)) }

  function WithoutMask(h: Hash, m: bv64): Hash { Hash(Clear(h.word, m)) }

  lemma MaskAdded(h: Hash, m: bv64, n: bv64)
    requires Apart(h.word, m)
    ensures m != 0 ==> !Apart(WithMask(h, m).word, m)
    ensures WithoutMask(WithMask(h, m), m) == h
    ensures Apart(h.word, n) && Apart(m, n) ==> Apart(WithMask(h, m).word, n)
  {
    hide Apart, Or, Clear;
    BitsThere(h.word, m);
    BitsTaken(h.word, m);
    if Apart(h.word, n) && Apart(m, n) { BitsElsewhere(h.word, m, n); }
  }

  lemma BitsThere(w: bv64, m: bv64)
    ensures m != 0 ==> !Apart(Or(w, m), m)
  {}

  lemma BitsTaken(w: bv64, m: bv64)
    requires Apart(w, m)
    ensures Clear(Or(w, m), m) == w
  {}

  lemma BitsElsewhere(w: bv64, m: bv64, n: bv64)
    requires Apart(w, n) && Apart(m, n)
    ensures Apart(Or(w, m), n)
  {}

  /** Only the first `k` bits are used. */
  ghost predicate Within(hs: set<Hash>, k: nat) {
    forall h, j :: h in hs && k <= j < 48 ==> Apart(h.word, Mask(j))
  }

  lemma WithinOne(hs: set<Hash>, k: nat, h: Hash, j: nat)
    requires Within(hs, k) && h in hs && k <= j < 48
    ensures Apart(h.word, Mask(j))
  {}

  lemma ZeroWithin()
    ensures Within({Hash(0)}, 0)
  {
    hide Mask;
  }

  /** All the hashes whose words use the first `k` bits. */
  lemma {:induction false} Hashes(k: nat) returns (hs: set<Hash>)
    requires k <= 48
    ensures |hs| == Pow2(k) && Within(hs, k)
  {
    hide Mask, Apart, WithMask, Within;
    if k == 0 {
      hs := {Hash(0)};
      ZeroWithin();
    } else {
      var lower := Hashes(k - 1);
      var upper := Raised(lower, k - 1);
      hs := lower + upper;
    }
  }

  /** The same hashes with bit `k` set. */
  lemma Raised(lower: set<Hash>, k: nat) returns (upper: set<Hash>)
    requires k < 48 && Within(lower, k)
    ensures |upper| == |lower| && upper !! lower && Within(lower + upper, k + 1)
  {
    hide Mask, Apart, WithMask, WithoutMask;
    var m := Mask(k);
    MaskNonZero(k);
    upper := RaisedAll(lower, m);
    forall h | h in upper ensures h !in lower {
      if h in lower {
        var g :| g in lower && h == WithMask(g, m);
        MaskAdded(g, m, m);
      }
    }
    forall h, j | h in lower + upper && k + 1 <= j < 48 ensures Apart(h.word, Mask(j)) {
      if h !in lower {
        var g :| g in lower && h == WithMask(g, m);
        MasksApart(k, j);
        MaskAdded(g, m, Mask(j));
      }
    }
  }

  lemma {:induction false} RaisedAll(lower: set<Hash>, m: bv64) returns (upper: set<Hash>)
    requires forall h :: h in lower ==> Apart(h.word, m)
    ensures |upper| == |lower| && forall h :: h in upper ==> exists g :: g in lower && h == WithMask(g, m)
  {
    hide Apart, WithMask, WithoutMask;
    upper := {};
    if lower != {} {
      var h :| h in lower;
      var rest := RaisedAll(lower - {h}, m);
      assert WithMask(h, m) !in rest by {
        if WithMask(h, m) in rest {
          var g :| g in lower - {h} && WithMask(h, m) == WithMask(g, m);
          MaskAdded(g, m, m);
          MaskAdded(h, m, m);
        }
      }
      upper := rest + {WithMask(h, m)};
    }
  }

  // ---------- pigeonholes ----------

  lemma OneHoleLess(hs: set<Hash>, some: set<Hash>, n: nat, c: nat)
    requires some <= hs && |hs| > c * n && |some| <= c && n > 0
    ensures |hs - some| > c * (n - 1)
  {
    assert c * n == c * (n - 1) + c;
    assert hs == (hs - some) + some;
  }

  /** More than `c * n` hashes in `n` holes put more than `c` of them in one. */
  lemma {:induction false} Pigeonhole(hs: set<Hash>, hole: Hash -> nat, n: nat, c: nat) returns (some: set<Hash>)
    requires |hs| > c * n && n > 0 && forall h :: h in hs ==> hole(h) < n
    ensures some <= hs && |some| > c && forall g, h :: g in some && h in some ==> hole(g) == hole(h)
  {
    some := set h | h in hs && hole(h) == n - 1;
    if |some| <= c {
      var others := hs - some;
      OneHoleLess(hs, some, n, c);
      some := Pigeonhole(others, hole, n - 1, c);
    }
  }

  ghost predicate AgreeOnBits(a: Addressing, hs: set<Hash>, lo: nat, hi: nat)
    requires hi <= 16
  {
    forall j, g, h :: lo <= j < hi && g in hs && h in hs ==> Bit(a.probe(g).0, j) == Bit(a.probe(h).0, j)
  }

  lemma HalfOf(c: nat, k: nat)
    requires k > 0
    ensures c * Pow2(k) == (c * Pow2(k - 1)) * 2
  {
    assert Pow2(k) == 2 * Pow2(k - 1);
  }

  /** Halving for each bit of the fingerprint leaves hashes that agree on all of them. */
  lemma {:induction false} Agreeing(a: Addressing, hs: set<Hash>, k: nat, c: nat) returns (some: set<Hash>)
    requires k <= 16 && |hs| > c * Pow2(k)
    ensures some <= hs && |some| > c && AgreeOnBits(a, some, 0, k)
  {
    hide Bit, Pow2;
    if k == 0 {
      PowersOfTwo();
      some := hs;
    } else {
      HalfOf(c, k);
      var half := Pigeonhole(hs, h => Bit(a.probe(h).0, k - 1), 2, c * Pow2(k - 1));
      some := Agreeing(a, half, k - 1, c);
    }
  }

  // ---------- nine siblings ----------

  /** Distinct hashes with the same fingerprint and primary bucket. */
  ghost predicate SamePlace(a: Addressing, hs: seq<Hash>) {
    && (forall m, n :: 0 <= m < n < |hs| ==> hs[m] != hs[n])
    && forall m, n :: 0 <= m < n < |hs| ==> a.probe(hs[m]) == a.probe(hs[n])
  }

  /** Under every addressing some nine hashes compete for one place. */
  lemma NineInOnePlace(a: Addressing) returns (hs: seq<Hash>)
    requires a.Valid()
    ensures |hs| == 9 && SamePlace(a, hs)
  {
    hide Bit, Pow2, Within;
    var all := Hashes(36);
    PowersOfTwo();
    var inBucket := Pigeonhole(all, h => a.probe(h).1, BUCKETS_PER_LANE, 8 * Pow2(16));
    var inPlace := Agreeing(a, inBucket, 16, 8);
    forall g, h | g in inPlace && h in inPlace ensures a.probe(g) == a.probe(h) {
      SameBits(a.probe(g).0, a.probe(h).0);
      assert a.probe(g).1 == a.probe(h).1;
    }
    hs := Picked(inPlace, 9);
  }

  lemma PowersOfTwo()
    ensures Pow2(0) == 1 && Pow2(16) == BUCKETS_PER_LANE && Pow2(36) == 16 * 0x1_0000 * 0x1_0000
  {
    Pow2Values();
    assert Pow2(36) == 2 * (2 * (2 * (2 * Pow2(32))));
  }

  lemma {:induction false} Picked(all: set<Hash>, n: nat) returns (hs: seq<Hash>)
    requires n <= |all|
    ensures |hs| == n && (forall m, k :: 0 <= m < k < n ==> hs[m] != hs[k]) && forall h :: h in hs ==> h in all
  {
    hs := [];
    if n > 0 {
      var h :| h in all;
      hs := Picked(all - {h}, n - 1);
      hs := hs + [h];
    }
  }
}
