/**
 * Making room for more secondary blocks in the DIR-24-8 tables
 * (bfclick/ip/directiplookup.cc:251-260), byte by byte: the entries and, behind
 * them, their lengths share one piece of memory.
 */
module DirectGrowth {
  /** Two bytes of entry `k`. */
  function EntryOf(mem: seq<bv8>, k: nat): (bv8, bv8)
    requires 2 * k + 1 < |mem|
  {
    (mem[2 * k], mem[2 * k + 1])
  }

  /** The length of entry `k` of `capacity`. */
  function LengthOf(mem: seq<bv8>, capacity: nat, k: nat): bv8
    requires 2 * capacity + k < |mem|
  {
    mem[2 * capacity + k]
  }

  /** `memcpy` */
  method Copy(source: array<bv8>, start: nat, target: array<bv8>, at: nat, n: nat)
    requires source != target && start + n <= source.Length && at + n <= target.Length
    modifies target
    ensures forall i :: 0 <= i < target.Length ==>
      target[i] == if at <= i < at + n then source[start + i - at] else old(target[i])
  {
    for k := 0 to n
      invariant forall i :: 0 <= i < target.Length ==>
        target[i] == if at <= i < at + k then source[start + i - at] else old(target[i])
    {
      target[at + k] := source[start + k];
    }
  }

  /**
   * The lengths are copied to behind as many entries as there were, and from then
   * on read from behind twice as many: they are those from before exactly when the
   * memory there, as the allocator returned it, happens to hold them.
   */
  method Enlarge(tbl: array<bv8>, capacity: nat, mem: array<bv8>)
    requires tbl != mem && tbl.Length == 3 * capacity && mem.Length == 6 * capacity
    modifies mem
    ensures forall i :: 0 <= i < 6 * capacity ==> mem[i] == if i < 3 * capacity then tbl[i] else old(mem[i])
    ensures forall k :: 0 <= k < capacity ==> EntryOf(mem[..], k) == EntryOf(tbl[..], k)
    ensures forall k :: 0 <= k < 2 * capacity ==> LengthOf(mem[..], 2 * capacity, k) == old(mem[4 * capacity + k])
    ensures (forall k :: 0 <= k < capacity ==> LengthOf(mem[..], 2 * capacity, k) == LengthOf(tbl[..], capacity, k))
      <==> old(mem[4 * capacity..5 * capacity]) == tbl[2 * capacity..]
  {
    Copy(tbl, 0, mem, 0, 2 * capacity);
    Copy(tbl, 2 * capacity, mem, 2 * capacity, capacity);
    ghost var lengths := old(mem[4 * capacity..5 * capacity]);
    assert forall k :: 0 <= k < capacity ==> lengths[k] == LengthOf(mem[..], 2 * capacity, k);
    assert forall k :: 0 <= k < capacity ==> tbl[2 * capacity..][k] == LengthOf(tbl[..], capacity, k);
  }
}
