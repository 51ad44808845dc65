/** The 32-bit string hash that picks a bucket: HashTableCalculateHash. */
module Hashing {
  import opened Units

  const SEED := 5381

  /** Inverse of 33 modulo 2^32: 33 * 1041204193 == 8 * 2^32 + 1. */
  const INVERSE_OF_33 := 1041204193

  type ulong = n: int | 0 <= n < ULONG_LIMIT

  /** One turn of the loop, every intermediate result truncated to 32 bits. */
  function Step(h: ulong, c: unit): ulong {
    (((h * 32) % ULONG_LIMIT + h) % ULONG_LIMIT + c) % ULONG_LIMIT
  }

  /** The only state that one turn of the loop could have come from. */
  function Unstep(h: ulong, c: unit): ulong {
    (INVERSE_OF_33 * (h - c)) % ULONG_LIMIT
  }

  function Fold(h: ulong, s: seq<unit>): ulong
    decreases s
  {
    if s == [] then h else Fold(Step(h, s[0]), s[1..])
  }

  function Hash32(s: seq<unit>): ulong {
    Fold(SEED, s)
  }

  function Bucket(key: seq<unit>, size: ulong): nat
    requires size > 0
  {
    Hash32(key) % size
  }

  // ---------- closed form ----------

  function Pow33(n: nat): nat {
    if n == 0 then 1 else 33 * Pow33(n - 1)
  }

  /** Sum of s[i] * 33^(|s|-1-i). */
  function Weighted(s: seq<unit>): nat {
    if s == [] then 0 else s[0] * Pow33(|s| - 1) + Weighted(s[1..])
  }

  lemma StepIsAffine(h: ulong, c: unit)
    ensures Step(h, c) == (33 * h + c) % ULONG_LIMIT
  {
    ReduceTerm(h * 32, h);
    ReduceTerm(h * 33, c);
  }

  lemma ReduceTerm(a: nat, b: nat)
    ensures (a % ULONG_LIMIT + b) % ULONG_LIMIT == (a + b) % ULONG_LIMIT
  {
    ModShift(a % ULONG_LIMIT + b, a / ULONG_LIMIT);
  }

  lemma ModShift(a: int, k: int)
    ensures (a + ULONG_LIMIT * k) % ULONG_LIMIT == a % ULONG_LIMIT
  {
  }

  lemma ReduceFactor(x: nat, p: nat, w: nat)
    ensures (x % ULONG_LIMIT * p + w) % ULONG_LIMIT == (x * p + w) % ULONG_LIMIT
  {
    var q := x / ULONG_LIMIT;
    var r := x % ULONG_LIMIT;
    assert x * p == ULONG_LIMIT * (q * p) + r * p by {
      assert x == ULONG_LIMIT * q + r;
    }
    ModShift(r * p + w, q * p);
  }

  lemma Regroup(h: int, c: int, p: int, w: int)
    ensures (33 * h + c) * p + w == h * (33 * p) + (c * p + w)
  {
  }

  lemma StepClosedForm(h: ulong, c: unit, p: nat, w: nat)
    ensures (Step(h, c) * p + w) % ULONG_LIMIT == (h * (33 * p) + (c * p + w)) % ULONG_LIMIT
  {
    StepIsAffine(h, c);
    ReduceFactor(33 * h + c, p, w);
    Regroup(h, c, p, w);
  }

  lemma {:induction false} FoldClosedForm(h: ulong, s: seq<unit>)
    ensures Fold(h, s) == (h * Pow33(|s|) + Weighted(s)) % ULONG_LIMIT
    decreases s
  {
    if s == [] {
    } else {
      FoldClosedForm(Step(h, s[0]), s[1..]);
      StepClosedForm(h, s[0], Pow33(|s| - 1), Weighted(s[1..]));
    }
  }

  lemma HashClosedForm(s: seq<unit>)
    ensures Hash32(s) == (5381 * Pow33(|s|) + Weighted(s)) % 0x1_0000_0000
  {
    FoldClosedForm(SEED, s);
  }

  // ---------- the step is a bijection ----------

  lemma UnstepUndoesStep(h: ulong, c: unit)
    ensures Unstep(Step(h, c), c) == h
  {
    StepIsAffine(h, c);
    var q := (33 * h + c) / ULONG_LIMIT;
    assert Step(h, c) - c == 33 * h - ULONG_LIMIT * q;
    assert INVERSE_OF_33 * (Step(h, c) - c) == h + ULONG_LIMIT * (8 * h - INVERSE_OF_33 * q);
    ModShift(h, 8 * h - INVERSE_OF_33 * q);
  }

  lemma StepUndoesUnstep(h: ulong, c: unit)
    ensures Step(Unstep(h, c), c) == h
  {
    var u := Unstep(h, c);
    StepIsAffine(u, c);
    var k := (INVERSE_OF_33 * (h - c)) / ULONG_LIMIT;
    assert u == INVERSE_OF_33 * (h - c) - ULONG_LIMIT * k;
    assert 33 * u + c == h + ULONG_LIMIT * (8 * (h - c) - 33 * k);
    ModShift(h, 8 * (h - c) - 33 * k);
  }

  /** h -> 33 * h + c is a bijection on 32-bit words. */
  lemma StepHasInverse(h: ulong, c: unit)
    ensures Unstep(Step(h, c), c) == h
    ensures Step(Unstep(h, c), c) == h
  {
    UnstepUndoesStep(h, c);
    StepUndoesUnstep(h, c);
  }

  lemma {:induction false} FoldIsInjective(g: ulong, h: ulong, s: seq<unit>)
    ensures Fold(g, s) == Fold(h, s) <==> g == h
    decreases s
  {
    if s == [] {
    } else {
      FoldIsInjective(Step(g, s[0]), Step(h, s[0]), s[1..]);
      StepHasInverse(g, s[0]);
      StepHasInverse(h, s[0]);
    }
  }

  lemma {:induction false} FoldAppend(h: ulong, p: seq<unit>, s: seq<unit>)
    ensures Fold(h, p + s) == Fold(Fold(h, p), s)
    decreases p
  {
    if p == [] {
      assert p + s == s;
    } else {
      assert (p + s)[1..] == p[1..] + s;
      FoldAppend(Step(h, p[0]), p[1..], s);
    }
  }

  /** A common suffix neither creates nor hides a collision of the 32-bit hash. */
  lemma SuffixCancels(p: seq<unit>, q: seq<unit>, s: seq<unit>)
    ensures Hash32(p + s) == Hash32(q + s) <==> Hash32(p) == Hash32(q)
  {
    FoldAppend(SEED, p, s);
    FoldAppend(SEED, q, s);
    FoldIsInjective(Hash32(p), Hash32(q), s);
  }

  lemma SmallOffsets(x: int, m: nat, n: nat)
    requires m < ULONG_LIMIT && n < ULONG_LIMIT
    ensures (x + m) % ULONG_LIMIT == (x + n) % ULONG_LIMIT <==> m == n
  {
    var i := (x + m) / ULONG_LIMIT;
    var j := (x + n) / ULONG_LIMIT;
    if (x + m) % ULONG_LIMIT == (x + n) % ULONG_LIMIT {
      assert m - n == ULONG_LIMIT * (i - j);
    }
  }

  /** Two keys that differ in exactly one code unit never share the 32-bit hash. */
  lemma OneUnitNeverCollides(p: seq<unit>, c: unit, d: unit, s: seq<unit>)
    ensures Hash32(p + [c] + s) == Hash32(p + [d] + s) <==> c == d
  {
    SuffixCancels(p + [c], p + [d], s);
    SingleUnit(p, c);
    SingleUnit(p, d);
    SmallOffsets(33 * Hash32(p), c, d);
  }

  lemma SingleUnit(p: seq<unit>, c: unit)
    ensures Hash32(p + [c]) == (33 * Hash32(p) + c) % ULONG_LIMIT
  {
    FoldAppend(SEED, p, [c]);
    StepIsAffine(Hash32(p), c);
  }

  /** Two adjacent units collide exactly on the plain integer equation, with no wrap-around involved. */
  lemma AdjacentPairCollision(p: seq<unit>, a: unit, b: unit, c: unit, d: unit, s: seq<unit>)
    ensures Hash32(p + [a, b] + s) == Hash32(p + [c, d] + s) <==> 33 * a + b == 33 * c + d
  {
    SuffixCancels(p + [a, b], p + [c, d], s);
    UnitPair(p, a, b);
    UnitPair(p, c, d);
    SmallOffsets(1089 * Hash32(p), 33 * a + b, 33 * c + d);
  }

  lemma UnitPair(p: seq<unit>, a: unit, b: unit)
    ensures Hash32(p + [a, b]) == (1089 * Hash32(p) + (33 * a + b)) % ULONG_LIMIT
  {
    FoldAppend(SEED, p, [a, b]);
    FoldClosedForm(Hash32(p), [a, b]);
    PairWeight(a, b);
  }

  lemma PairWeight(a: unit, b: unit)
    ensures Pow33(2) == 1089 && Weighted([a, b]) == 33 * a + b
  {
    var pair, last := [a, b], [b];
    assert Pow33(0) == 1 && Pow33(1) == 33 * Pow33(0) && Pow33(2) == 33 * Pow33(1);
    assert pair[1..] == last && last[1..] == [];
    assert Weighted(last) == b * Pow33(0) + Weighted([]);
    assert Weighted(pair) == a * Pow33(1) + Weighted(last);
  }

  lemma BucketClosedForm(key: seq<unit>, size: ulong)
    requires size > 0
    ensures Bucket(key, size) == (5381 * Pow33(|key|) + Weighted(key)) % 0x1_0000_0000 % size
    ensures Bucket(key, size) < size
  {
    HashClosedForm(key);
  }

  // ---------- what the low bits of the units decide ----------

  /** The units of both keys agree in their five low bits, as two spellings in ASCII letters do. */
  predicate SameLowBits(a: seq<unit>, b: seq<unit>) {
    |a| == |b| && forall i :: 0 <= i < |a| ==> a[i] % 32 == b[i] % 32
  }

  lemma StepLowBits(h: ulong, c: unit)
    ensures Step(h, c) % 32 == (h % 32 + c % 32) % 32
  {
    StepIsAffine(h, c);
    var q := (33 * h + c) / ULONG_LIMIT;
    var k := 33 * (h / 32) + h % 32 + c / 32 - ULONG_LIMIT / 32 * q;
    assert Step(h, c) == 32 * k + (h % 32 + c % 32);
    DropMultiple(h % 32 + c % 32, k, 32);
  }

  lemma AtLeastOnce(m: nat, d: int)
    requires d >= 1
    ensures m * d >= m
  {
    assert m * d == m + m * (d - 1);
  }

  lemma RemaindersAgree(m: nat, p: int, r: nat, q: int, s: nat)
    requires m * p + r == m * q + s && r < m && s < m
    ensures r == s
  {
    if p > q {
      AtLeastOnce(m, p - q);
    } else if p < q {
      AtLeastOnce(m, q - p);
    }
  }

  lemma DropMultiple(a: nat, k: int, m: nat)
    requires m > 0
    ensures (m * k + a) % m == a % m
  {
    var x := m * k + a;
    assert m * (k + a / m) == m * k + m * (a / m);
    RemaindersAgree(m, x / m, x % m, k + a / m, a % m);
  }

  lemma {:induction false} FoldLowBits(g: ulong, h: ulong, a: seq<unit>, b: seq<unit>)
    requires g % 32 == h % 32 && SameLowBits(a, b)
    ensures Fold(g, a) % 32 == Fold(h, b) % 32
    decreases a
  {
    if a == [] {
      assert b == [];
    } else {
      StepLowBits(g, a[0]);
      StepLowBits(h, b[0]);
      FoldLowBits(Step(g, a[0]), Step(h, b[0]), a[1..], b[1..]);
    }
  }

  /** When the number of buckets divides 32, keys that agree in the low bits of their units share a bucket. */
  lemma LowBitsDecideBucket(a: seq<unit>, b: seq<unit>, size: ulong)
    requires size > 0 && 32 % size == 0 && SameLowBits(a, b)
    ensures Bucket(a, size) == Bucket(b, size)
  {
    FoldLowBits(SEED, SEED, a, b);
    ModOfMod(Hash32(a), size, 32 / size);
    ModOfMod(Hash32(b), size, 32 / size);
  }

  lemma ModOfMod(h: nat, size: nat, k: nat)
    requires size > 0 && size * k == 32
    ensures h % size == h % 32 % size
  {
    var q := h / 32;
    assert size * (k * q) == size * k * q;
    DropMultiple(h % 32, k * q, size);
  }

  lemma FoldNext(key: seq<unit>, index: nat)
    requires index < |key|
    ensures Fold(SEED, key[..index + 1]) == Step(Fold(SEED, key[..index]), key[index])
  {
    FoldAppend(SEED, key[..index], [key[index]]);
    assert key[..index + 1] == key[..index] + [key[index]];
  }

  /** The loop, with its USHORT counter and ULONG accumulator. */
  method HashLoop(key: Ustr) returns (acc: ulong)
    ensures acc == Hash32(key)
  {
    acc := SEED;
    var length := 2 * |key|;
    var len := length / 2;
    var index := 0;
    while index < len
      invariant 0 <= index <= len
      invariant acc == Fold(SEED, key[..index])
    {
      FoldNext(key, index);
      acc := Step(acc, key[index]);
      index := (index + 1) % USHORT_LIMIT;
    }
    assert key[..len] == key;
  }

  /** HashTableCalculateHash. */
  method CalculateHash(key: Ustr, hashtableSize: ulong) returns (hash: nat)
    requires hashtableSize > 0
    ensures hash == (5381 * Pow33(|key|) + Weighted(key)) % 0x1_0000_0000 % hashtableSize
    ensures hash == Bucket(key, hashtableSize) < hashtableSize
  {
    var acc := HashLoop(key);
    hash := acc % hashtableSize;
    BucketClosedForm(key, hashtableSize);
  }
}
