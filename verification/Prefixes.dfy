/** Powers of two, and the little division arithmetic the prefix lemmas need. */
module Powers {

  function Pow2(n: nat): (p: nat)
    ensures p > 0
  {
    if n == 0 then 1 else 2 * Pow2(n - 1)
  }

  lemma {:induction false} Pow2Add(m: nat, n: nat)
    ensures Pow2(m + n) == Pow2(m) * Pow2(n)
  {
    if n > 0 {
      Pow2Add(m, n - 1);
      assert Pow2(m + n) == 2 * Pow2(m + n - 1);
    }
  }

  lemma MulAway(d: int, b: int)
    requires b > 0
    ensures d >= 1 ==> d * b >= b
    ensures d <= -1 ==> d * b <= -b
  {
    if d >= 1 {
      assert d * b == (d - 1) * b + b;
    } else if d <= -1 {
      assert d * b == (d + 1) * b - b;
    }
  }

  lemma DivUnique(a: int, b: int, q: int, r: int)
    requires b > 0 && a == q * b + r && 0 <= r < b
    ensures a / b == q && a % b == r
  {
    var d := a / b - q;
    assert a == (a / b) * b + a % b;
    assert d * b == r - a % b;
    MulAway(d, b);
  }

  lemma SameBlockDiv(a: nat, b: nat, s: nat)
    requires s > 0
    ensures a - a % s == b - b % s <==> a / s == b / s
  {
    assert a == (a / s) * s + a % s;
    assert b == (b / s) * s + b % s;
    if a - a % s == b - b % s {
      MulAway(a / s - b / s, s);
      assert (a / s - b / s) * s == (a / s) * s - (b / s) * s;
    }
  }

  lemma InBlock(a: nat, b: nat, s: nat)
    requires s > 0 && b % s == 0
    ensures a - a % s == b <==> b <= a < b + s
  {
    SameBlockDiv(a, b, s);
    if b <= a < b + s {
      DivUnique(a, s, b / s, a - b);
    }
  }

  lemma Regroup(q: nat, c: nat, r: nat, b: nat)
    ensures (q * c + r) * b == q * (b * c) + r * b
  {
    assert (q * c) * b == q * (b * c);
  }

  lemma RemainderBound(r: nat, c: nat, b: nat, s: nat)
    requires r < c && s < b
    ensures r * b + s < b * c
  {
    MulAway(c - r, b);
    assert b * c == (c - r) * b + r * b;
  }

  lemma DivDiv(a: nat, b: nat, c: nat)
    requires b > 0 && c > 0
    ensures b * c > 0 && a / (b * c) == a / b / c
  {
    var q, r := a / b, a % b;
    var q2, r2 := q / c, q % c;
    Quotient(a, b);
    Quotient(q, c);
    Regroup(q2, c, r2, b);
    RemainderBound(r2, c, b, r);
    DivUnique(a, b * c, q2, r2 * b + r);
  }

  lemma Quotient(a: nat, b: nat)
    requires b > 0
    ensures a == (a / b) * b + a % b
  {
  }
}

/**
 * IPv4 prefixes and the specification every table in this project is measured
 * against: a finite map from prefix to route, and the longest matching prefix
 * of an address. Addresses are host-order integers below 2^32.
 */
module Prefixes {
  import opened Powers

  const ADDRESSES := 0x1_0000_0000

  datatype Prefix = Prefix(addr: nat, len: nat)

  /** The number of addresses a prefix of this length covers. */
  function Size(len: nat): (s: nat)
    requires len <= 32
    ensures s > 0
  {
    Pow2(32 - len)
  }

  /** `a` with its low `k` bits cleared. */
  function Clear(a: nat, k: nat): nat {
    if k == 0 then a else 2 * Clear(a / 2, k - 1)
  }

  /** `a & (0xffffffff << (32 - len))`: the network part of an address. */
  function Trunc(a: nat, len: nat): nat
    requires len <= 32
  {
    Clear(a, 32 - len)
  }

  lemma {:induction false} ClearRange(a: nat, k: nat)
    ensures Clear(a, k) <= a < Clear(a, k) + Pow2(k)
  {
    if k > 0 {
      ClearRange(a / 2, k - 1);
    }
  }

  lemma {:induction false} ClearMultiple(a: nat, k: nat) returns (q: nat)
    ensures Clear(a, k) == q * Pow2(k)
  {
    if k == 0 {
      q := a;
    } else {
      q := ClearMultiple(a / 2, k - 1);
      assert q * (2 * Pow2(k - 1)) == 2 * (q * Pow2(k - 1));
    }
  }

  lemma ClearMod(a: nat, k: nat)
    ensures Clear(a, k) == a - a % Pow2(k)
  {
    ClearRange(a, k);
    var q := ClearMultiple(a, k);
    DivUnique(a, Pow2(k), q, a - Clear(a, k));
  }

  lemma {:induction false} ClearIdempotent(a: nat, k: nat)
    ensures Clear(Clear(a, k), k) == Clear(a, k)
  {
    if k > 0 {
      ClearIdempotent(a / 2, k - 1);
    }
  }

  /** The only prefix of length `len` that can cover `a`. */
  function At(a: nat, len: nat): Prefix
    requires len <= 32
  {
    Prefix(Trunc(a, len), len)
  }

  ghost predicate Canonical(p: Prefix) {
    p.len <= 32 && p.addr < ADDRESSES && Trunc(p.addr, p.len) == p.addr
  }

  predicate Contains(p: Prefix, a: nat) {
    p.len <= 32 && Trunc(a, p.len) == p.addr
  }

  ghost predicate AllCanonical<V>(routes: map<Prefix, V>) {
    forall p {:trigger Canonical(p)} :: p in routes ==> Canonical(p)
  }

  /** `p` is the longest prefix of the map that covers `a`. */
  ghost predicate IsLongest<V>(routes: map<Prefix, V>, a: nat, p: Prefix) {
    && p in routes
    && Contains(p, a)
    && forall q <- routes :: Contains(q, a) ==> q.len <= p.len
  }

  ghost predicate NoMatch<V>(routes: map<Prefix, V>, a: nat) {
    forall q <- routes :: !Contains(q, a)
  }

  /** The same by length: length `len` matches and no longer one does. */
  ghost predicate Longest<V>(routes: map<Prefix, V>, a: nat, len: nat) {
    && len <= 32
    && At(a, len) in routes
    && forall l :: len < l <= 32 ==> At(a, l) !in routes
  }

  lemma LongestIsLongest<V>(routes: map<Prefix, V>, a: nat, len: nat)
    requires Longest(routes, a, len)
    ensures IsLongest(routes, a, At(a, len))
  {
    SameTrunc(a, Trunc(a, len), len);
    TruncIdempotent(a, len);
    forall q <- routes | Contains(q, a)
      ensures q.len <= len
    {
      assert q == At(a, q.len);
    }
  }

  lemma LongestUnique<V>(routes: map<Prefix, V>, a: nat, p: Prefix, q: Prefix)
    requires IsLongest(routes, a, p) && IsLongest(routes, a, q)
    ensures p == q
  {
  }

  lemma TruncIdempotent(a: nat, len: nat)
    requires len <= 32
    ensures Trunc(Trunc(a, len), len) == Trunc(a, len)
  {
    ClearIdempotent(a, 32 - len);
  }

  /** Two addresses are truncated alike exactly when their quotients agree. */
  lemma SameTrunc(a: nat, b: nat, len: nat)
    requires len <= 32
    ensures Trunc(a, len) == Trunc(b, len) <==> a / Size(len) == b / Size(len)
  {
    ClearMod(a, 32 - len);
    ClearMod(b, 32 - len);
    SameBlockDiv(a, b, Size(len));
  }

  lemma SizeSplit(len: nat, longer: nat)
    requires len <= longer <= 32
    ensures Size(len) == Size(longer) * Pow2(longer - len)
  {
    Pow2Add(32 - longer, longer - len);
  }

  /** Prefixes nest: agreement to a length is agreement to every shorter one. */
  lemma Nest(a: nat, b: nat, len: nat, longer: nat)
    requires len <= longer <= 32
    requires Trunc(a, longer) == Trunc(b, longer)
    ensures Trunc(a, len) == Trunc(b, len)
  {
    SizeSplit(len, longer);
    SameTrunc(a, b, longer);
    SameTrunc(a, b, len);
    DivDiv(a, Size(longer), Pow2(longer - len));
    DivDiv(b, Size(longer), Pow2(longer - len));
  }

  /** A covered address shares every shorter truncation with the prefix address. */
  lemma NestUnder(p: Prefix, a: nat, len: nat)
    requires Canonical(p) && Contains(p, a) && len <= p.len
    ensures Trunc(a, len) == Trunc(p.addr, len)
  {
    Nest(a, p.addr, len, p.len);
  }

  /** A canonical prefix covers exactly one run of `Size(len)` addresses. */
  lemma ContainsRange(p: Prefix, a: nat)
    requires Canonical(p)
    ensures Contains(p, a) <==> p.addr <= a < p.addr + Size(p.len)
  {
    ClearMod(a, 32 - p.len);
    ClearMod(p.addr, 32 - p.len);
    InBlock(a, p.addr, Size(p.len));
  }
}
