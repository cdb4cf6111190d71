/** One Bloom filter over prefix addresses: `bloom_filter` (BloomFilter.h). */
module BloomFilters {

  const RAND_MAX := 0x7FFF_FFFF
  const FUNCTIONS := 8

  /** What the `i`th `rand()` gives after `srand(seed)`, between 0 and `RAND_MAX`. */
  type Rand = (nat, nat) -> nat

  /** Lines 80 and 109: `rand() / RAND_MAX * table_size`, truncated. */
  function Position(rand: Rand, seed: nat, i: nat, size: nat): nat {
    rand(seed, i) * size / RAND_MAX
  }

  /** Of the numbers up to `RAND_MAX`, cut into `size` equal stretches, `n` is in the stretch of place `k`. */
  ghost predicate FallsOn(n: nat, size: nat, k: nat) {
    k * 0x7FFF_FFFF <= n * size < (k + 1) * 0x7FFF_FFFF
  }

  ghost predicate SamePlace(m: nat, n: nat, size: nat) {
    exists k: nat :: FallsOn(m, size, k) && FallsOn(n, size, k)
  }

  lemma PositionFalls(rand: Rand, seed: nat, i: nat, size: nat)
    ensures FallsOn(rand(seed, i), size, Position(rand, seed, i, size))
  {
    var n := rand(seed, i) * size;
    assert n == n / RAND_MAX * RAND_MAX + n % RAND_MAX;
  }

  lemma OnePlace(n: nat, size: nat, k: nat, l: nat)
    requires FallsOn(n, size, k) && FallsOn(n, size, l)
    ensures k == l
  {
  }

  lemma PlaceIsPosition(rand: Rand, s: nat, i: nat, t: nat, j: nat, size: nat)
    ensures SamePlace(rand(s, i), rand(t, j), size) <==> Position(rand, s, i, size) == Position(rand, t, j, size)
  {
    PositionFalls(rand, s, i, size);
    PositionFalls(rand, t, j, size);
    if SamePlace(rand(s, i), rand(t, j), size) {
      var k: nat :| FallsOn(rand(s, i), size, k) && FallsOn(rand(t, j), size, k);
      OnePlace(rand(s, i), size, k, Position(rand, s, i, size));
      OnePlace(rand(t, j), size, k, Position(rand, t, j, size));
    }
  }

  /** The greatest random number, and no other, falls past the end of the table. */
  lemma PositionInTable(rand: Rand, seed: nat, i: nat, size: nat)
    requires size > 0 && rand(seed, i) <= RAND_MAX
    ensures Position(rand, seed, i, size) < size <==> rand(seed, i) < RAND_MAX
  {
    var r := rand(seed, i);
    var p := r * size / RAND_MAX;
    assert p * RAND_MAX <= r * size < (p + 1) * RAND_MAX;
    if r < RAND_MAX {
      Scaled(r, size);
    } else {
      assert r * size == size * RAND_MAX;
    }
  }

  lemma Scaled(r: nat, size: nat)
    requires size > 0 && r < RAND_MAX
    ensures r * size < size * RAND_MAX
  {
    assert (RAND_MAX - r) * size == RAND_MAX * size - r * size;
  }

  /** No number drawn is the greatest, so that every position is in the table. */
  ghost predicate Fits(rand: Rand) {
    forall s, i :: rand(s, i) < RAND_MAX
  }

  ghost function UpTo2(n: nat): nat { if n <= 2 then n else 2 }

  /** The first `n` places an address falls on. */
  ghost function Places(rand: Rand, a: nat, n: nat, size: nat): multiset<nat> {
    if n == 0 then multiset{} else Places(rand, a, n - 1, size) + multiset{Position(rand, a, n - 1, size)}
  }

  lemma {:induction false} PlacesAre(rand: Rand, a: nat, n: nat, size: nat, k: nat)
    ensures k in Places(rand, a, n, size) <==> exists j {:trigger Position(rand, a, j, size)} :: 0 <= j < n && Position(rand, a, j, size) == k
  {
    if n > 0 {
      PlacesAre(rand, a, n - 1, size, k);
    }
  }

  /** Each place holds how often it has been hit, up to 2. */
  ghost predicate Count(places: seq<nat>, hits: multiset<nat>) {
    forall k :: 0 <= k < |places| ==> places[k] == UpTo2(hits[k])
  }

  lemma Regrouped<T>(a: multiset<T>, b: multiset<T>, c: multiset<T>)
    ensures a + b + c == a + (b + c)
  {
  }

  class BloomFilter {
    var table: array?<nat>      // hash_table
    const rand: Rand
    const size: nat             // table_size
    const functions: nat        // function_size
    ghost var inserted: set<nat>
    ghost var hits: multiset<nat>   // the places fallen on, each as often as it has been

    /** One of the addresses inserted falls on place `k`. */
    ghost predicate Hit(k: nat)
      reads this
    {
      exists a: nat, i: nat {:trigger Position(rand, a, i, size)} :: a in inserted && i < functions && Position(rand, a, i, size) == k
    }

    ghost predicate Valid()
      reads this, table
    {
      if table == null then functions == 0
      else
        && functions == FUNCTIONS && 0 < size == table.Length && Fits(rand)
        && Count(table[..], hits) && forall k :: 0 <= k < table.Length ==> Accounted(k)
    }

    ghost predicate Accounted(k: nat)
      reads this
    {
      k in hits <==> Hit(k)
    }

    /** Every place of an address has been hit by an address inserted: its own, if it was. */
    ghost predicate Answers(a: nat)
      reads this, table
    {
      table != null && forall i :: 0 <= i < functions ==> Hit(Position(rand, a, i, size))
    }

    /** The `i`th number drawn for `a` is on a place that one drawn for an address inserted is on. */
    ghost predicate Shared(a: nat, i: nat)
      reads this
    {
      exists b: nat, j: nat {:trigger rand(b, j)} :: b in inserted && j < 8 && SamePlace(rand(a, i), rand(b, j), size)
    }

    lemma HitIsShared(a: nat, i: nat)
      requires functions == FUNCTIONS
      ensures Hit(Position(rand, a, i, size)) <==> Shared(a, i)
    {
      forall b: nat, j: nat {:trigger rand(b, j)} | b in inserted && j < 8
        ensures SamePlace(rand(a, i), rand(b, j), size) <==> Position(rand, b, j, size) == Position(rand, a, i, size)
      {
        PlaceIsPosition(rand, a, i, b, j, size);
      }
    }

    /** Each number drawn for `a` shares its place; and there is a table at all. */
    ghost predicate LetsThrough(a: nat)
      reads this
    {
      table != null && forall i :: 0 <= i < 8 ==> Shared(a, i)
    }

    lemma AnswersIsShared(a: nat)
      requires Valid()
      ensures Answers(a) <==> LetsThrough(a)
    {
      if table != null {
        forall i | 0 <= i < 8
          ensures Hit(Position(rand, a, i, size)) <==> Shared(a, i)
        {
          HitIsShared(a, i);
        }
      }
    }

    /** `bloom_filter_init`: a filter for no elements has no table. */
    constructor (rand: Rand, tblSize: nat, elemSize: nat)
      requires Fits(rand)
      ensures Valid() && inserted == {} && (table == null <==> elemSize == 0) && (table != null ==> fresh(table))
      ensures this.rand == rand && size == (if tblSize == 0 then 1 else tblSize) && (table != null ==> functions == 8)
    {
      this.rand := rand;
      size := if tblSize == 0 then 1 else tblSize;
      inserted, hits := {}, multiset{};
      if elemSize == 0 {
        functions, table := 0, null;
      } else {
        functions, table := FUNCTIONS, new nat[if tblSize == 0 then 1 else tblSize](_ => 0);
      }
    }

    /** Lines 81-82: a place is fallen on once more. */
    method Strike(hash: nat)
      requires table != null && hash < table.Length && Count(table[..], hits)
      modifies `hits, table
      ensures hits == old(hits) + multiset{hash} && Count(table[..], hits)
    {
      ghost var was := table[..];
      assert was[hash] == UpTo2(hits[hash]);
      if table[hash] == 0 {
        table[hash] := 1;
      } else {
        table[hash] := 2;
      }
      hits := hits + multiset{hash};
      assert table[..] == was[hash := table[hash]];
    }

    /** Lines 75-84. */
    method Insert(a: nat)
      requires Valid()
      modifies `inserted, `hits, table
      ensures Valid() && inserted == old(inserted) + {a}
      ensures table != null ==> Answers(a) && hits == old(hits) + Places(rand, a, 8, size)
    {
      for i := 0 to functions
        invariant table == null ==> functions == 0
        invariant table != null ==> functions == FUNCTIONS && 0 < size == table.Length && Fits(rand)
        invariant inserted == old(inserted) && hits == old(hits) + Places(rand, a, i, size)
        invariant table != null ==> Count(table[..], hits)
      {
        PositionInTable(rand, a, i, size);
        var hash := Position(rand, a, i, size);
        Regrouped(old(hits), Places(rand, a, i, size), multiset{hash});
        Strike(hash);
      }
      inserted := inserted + {a};
      HitsGrow(a);
    }

    /** The places hit are those of the addresses inserted. */
    twostate lemma HitsGrow(new a: nat)
      requires old(Valid()) && table == old(table)
      requires table != null ==> functions == FUNCTIONS && hits == old(hits) + Places(rand, a, FUNCTIONS, size)
      requires inserted == old(inserted) + {a}
      ensures table != null ==> forall k :: 0 <= k < table.Length ==> Accounted(k)
      ensures table != null ==> Answers(a)
    {
      if table != null {
        forall k | 0 <= k < table.Length
          ensures Accounted(k)
        {
          PlacesAre(rand, a, FUNCTIONS, size, k);
          assert old(Accounted(k));
        }
      }
    }

    /** Lines 103-118: no address inserted is ever denied; another may be let through by chance. */
    method Contains(a: nat) returns (r: bool)
      requires Valid()
      ensures r <==> Answers(a)
      ensures r <==> LetsThrough(a)
    {
      AnswersIsShared(a);
      if table == null {
        return false;
      }
      for i := 0 to functions
        invariant forall j {:trigger Position(rand, a, j, size)} :: 0 <= j < i ==> Hit(Position(rand, a, j, size))
      {
        PositionInTable(rand, a, i, size);
        var hash := Position(rand, a, i, size);
        assert table[..][hash] == UpTo2(hits[hash]) && Accounted(hash);
        if table[hash] == 0 {
          return false;
        }
      }
      return true;
    }

    lemma InsertedAnswers(a: nat)
      requires table != null && a in inserted
      ensures Answers(a)
    {
    }
  }
}
