/**
 Numbers as digit sequences, and bit buffers as residues: what the base32 codecs and the counter
 of a time step share.
 */
module Radix {

  const WORD := 0x1_0000_0000

  function Pow2(k: nat): (p: nat)
    ensures p > 0
  {
    if k == 0 then 1 else 2 * Pow2(k - 1)
  }

  lemma {:induction false} PowersMultiply(j: nat, k: nat)
    ensures Pow2(j + k) == Pow2(j) * Pow2(k)
  {
    if k > 0 {
      PowersMultiply(j, k - 1);
      assert Pow2(j + k) == 2 * (Pow2(j) * Pow2(k - 1)) == Pow2(j) * (2 * Pow2(k - 1));
    }
  }

  lemma SmallPowers()
    ensures Pow2(0) == 1 && Pow2(1) == 2 && Pow2(5) == 32 && Pow2(8) == 256
  {
    assert Pow2(2) == 4 && Pow2(4) == 4 * Pow2(2) && Pow2(6) == 4 * Pow2(4);
    assert Pow2(8) == 4 * Pow2(6);
  }

  /** The word holds a whole number of blocks of `k` bits' worth. */
  lemma WordSplits(k: nat) returns (blocks: nat)
    requires k <= 32
    ensures WORD == blocks * Pow2(k)
  {
    hide Pow2;
    SmallPowers();
    PowersMultiply(8, 8);
    PowersMultiply(16, 16);
    PowersMultiply(32 - k, k);
    assert 256 * 256 == 65_536 && 65_536 * 65_536 == WORD;
    blocks := Pow2(32 - k);
  }

  /** The number a sequence of digits spells, most significant first. */
  function Num(ds: seq<nat>, radix: nat): nat {
    if ds == [] then 0 else Num(ds[..|ds| - 1], radix) * radix + ds[|ds| - 1]
  }

  predicate Digits(ds: seq<nat>, radix: nat) {
    forall i :: 0 <= i < |ds| ==> ds[i] < radix
  }

  lemma NumAppend(ds: seq<nat>, d: nat, radix: nat)
    ensures Num(ds + [d], radix) == Num(ds, radix) * radix + d
  {
    assert (ds + [d])[..|ds|] == ds;
  }

  /** Digit sequences of one length that spell one number are equal. */
  lemma {:induction false} NumInjective(a: seq<nat>, b: seq<nat>, radix: nat)
    requires |a| == |b| && radix > 0 && Digits(a, radix) && Digits(b, radix)
    requires Num(a, radix) == Num(b, radix)
    ensures a == b
  {
    if a != [] {
      var n := |a| - 1;
      QuotientAndRest(Num(a[..n], radix), a[n], Num(b[..n], radix), b[n], radix);
      NumInjective(a[..n], b[..n], radix);
      assert a == a[..n] + [a[n]] && b == b[..n] + [b[n]];
    }
  }

  lemma QuotientAndRest(q: int, r: nat, q': int, r': nat, radix: nat)
    requires r < radix && r' < radix && q * radix + r == q' * radix + r'
    ensures q == q' && r == r'
  {
    if q < q' {
      NextMultiple(q, q', radix);
    } else if q' < q {
      NextMultiple(q', q, radix);
    }
  }

  lemma NextMultiple(q: int, q': int, radix: nat)
    requires q < q'
    ensures q * radix + radix <= q' * radix
  {
    RegroupLess(q', q, radix);
    NotNegative(q' - q - 1, radix);
  }

  lemma Expand(x: int, y: int, r: int, z: int)
    ensures (x * y + r) * z == x * (y * z) + r * z
  {
  }

  lemma LessTimes(r: nat, b: nat, w: nat)
    requires r < b
    ensures r * w <= b * w - w
  {
    RegroupLess(b, r, w);
    NotNegative(b - r - 1, w);
  }

  lemma RegroupLess(b: int, r: int, w: int)
    ensures (b - r - 1) * w == b * w - r * w - w
  {
  }

  lemma NotNegative(x: nat, w: nat)
    ensures x * w >= 0
  {
  }

  lemma Swap(t: int, x: int, w: int)
    ensures t * (x * w) == t * w * x
  {
  }

  lemma Regroup(a: int, t: int, w: int)
    ensures (a - t) * w == a * w - t * w
  {
  }

  lemma RestIsModulo(n: int, a: int, r: nat, p: nat)
    requires p > 0 && n == a * p + r && r < p
    ensures n % p == r && n / p == a
  {
    QuotientAndRest(a, r, n / p, n % p, p);
  }

  /** Dropping what wrapped around changes only multiples of the word. */
  lemma Unwrap(n: nat, k: nat) returns (t: nat)
    requires k <= 32
    ensures n % WORD == n - t * Pow2(k)
  {
    var blocks := WordSplits(k);
    t := n / WORD * blocks;
    assert n / WORD * blocks * Pow2(k) == n / WORD * (blocks * Pow2(k));
  }

  /** Reading `width` bits above the `low` ones: the wrapped buffer still holds them. */
  lemma BufferHolds(n: nat, a: nat, r: nat, low: nat, width: nat)
    requires low + width <= 32
    requires n == a * Pow2(low + width) + r && r < Pow2(low + width)
    ensures (n % WORD / Pow2(low)) % Pow2(width) == r / Pow2(low) < Pow2(width)
  {
    var p, w := Pow2(low), Pow2(width);
    PowersMultiply(low, width);
    var t := Unwrap(n, low + width);
    TopBits(a - t, r, p, w);
    assert n % WORD == (a - t) * (p * w) + r by {
      assert (a - t) * (p * w) == a * (p * w) - t * (p * w);
    }
  }

  lemma Commute(p: int, w: int)
    ensures p * w == w * p
  {
  }

  lemma DivideWith(n: nat, m: nat)
    requires m > 0
    ensures n == n / m * m + n % m && n % m < m
  {
  }

  lemma TopBits(a: int, r: nat, p: nat, w: nat)
    requires p > 0 && w > 0 && r < p * w
    ensures (a * (p * w) + r) / p == a * w + r / p
    ensures r / p < w && (a * w + r / p) % w == r / p
  {
    var q, rest := r / p, r % p;
    DivideWith(r, p);
    Commute(p, w);
    QuotientBelow(q, rest, p, w);
    Expand(a, w, q, p);
    SameProduct(a, p * w, w * p);
    RestIsModulo(a * (p * w) + r, a * w + q, rest, p);
    RestIsModulo(a * w + q, a, q, w);
  }

  lemma QuotientBelow(q: nat, rest: nat, p: nat, w: nat)
    requires q * p + rest < w * p
    ensures q < w
  {
    if q >= w {
      Regroup(q, w, p);
      NotNegative(q - w, p);
    }
  }

  lemma SameProduct(a: int, x: int, y: int)
    requires x == y
    ensures a * x == a * y
  {
  }
}
