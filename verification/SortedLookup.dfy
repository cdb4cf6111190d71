/**
 * The routing table kept in topological order: `SortedIPLookup`
 * (bfclick/ip/sortediplookup.cc).
 */
module SortedLookups {
  import opened Prefixes
  import opened LinearLookups
  import opened Results

  /** Slot `i` is a live route inside the route of slot `j`. */
  predicate Below(t: seq<Slot>, j: nat, i: nat)
    requires i < |t| && j < |t|
  {
    i != j && t[i].Real() && Inside(t[j].prefix, t[i].prefix)
  }

  /** The routes below `j` that are not yet done. */
  function Pending(t: seq<Slot>, j: nat, done: set<nat>): set<nat>
    requires j < |t|
  {
    set i: nat | i < |t| && i !in done && Below(t, j, i)
  }

  function Reals(t: seq<Slot>): set<nat> {
    set i: nat | i < |t| && t[i].Real()
  }

  function Elements(s: seq<nat>): set<nat> {
    set x | x in s
  }

  ghost predicate Distinct(s: seq<nat>) {
    forall x, y :: 0 <= x < y < |s| ==> s[x] != s[y]
  }

  lemma {:induction false} DistinctSize(s: seq<nat>)
    requires Distinct(s)
    ensures |Elements(s)| == |s|
  {
    if s == [] {
      assert Elements(s) == {};
    } else {
      var r := s[..|s| - 1];
      DistinctSize(r);
      assert Elements(s) == Elements(r) + {s[|s| - 1]};
    }
  }

  ghost predicate InTable(t: seq<Slot>, permute: seq<nat>) {
    forall z :: 0 <= z < |permute| ==> permute[z] < |t| && t[permute[z]].Real()
  }

  /**
   * Entry `y` of the permutation was put there when entry `due[y]` was gone over,
   * the last of the routes below it; or, with none below it, when the queue was empty.
   */
  ghost predicate Due(t: seq<Slot>, permute: seq<nat>, due: seq<nat>, y: nat)
    requires |due| == |permute| && y < |permute| && InTable(t, permute)
  {
    && due[y] <= y
    && if due[y] == y then Pending(t, permute[y], {}) == {}
       else Below(t, permute[y], permute[due[y]]) && Pending(t, permute[y], {}) <= Elements(permute[..due[y] + 1])
  }

  /** The permutation so far, with the first `qpos` entries gone over. */
  ghost predicate Queue(t: seq<Slot>, permute: seq<nat>, qpos: nat, due: seq<nat>) {
    && qpos <= |permute| && |due| == |permute| && Distinct(permute) && InTable(t, permute)
    && (forall y :: 0 <= y < |permute| ==> Due(t, permute, due, y))
    && forall x, y :: 0 <= x < y < |due| ==> due[x] <= due[y]
  }

  /** What `dep` says of slot `k`, when the entries before `q` have been taken off it. */
  ghost predicate DepAt(t: seq<Slot>, dep: seq<int>, permute: seq<nat>, qpos: nat, q: nat, k: nat)
    requires k < |t| == |dep| && q <= qpos <= |permute|
  {
    if !t[k].Real() then dep[k] > 0
    else if k in permute[..qpos] then dep[k] == -1
    else if k in permute then dep[k] == 0
    else dep[k] == |Pending(t, k, Elements(permute[..q]))| && (dep[k] == 0 ==> Pending(t, k, {}) == {})
  }

  ghost predicate DepMid(t: seq<Slot>, dep: seq<int>, permute: seq<nat>, qpos: nat, i: nat, k: nat)
    requires k < |t| == |dep| && 0 < qpos <= |permute|
  {
    DepAt(t, dep, permute, qpos, if k < i then qpos else qpos - 1, k)
  }

  /** Part of the way through going over entry `qpos - 1`: slots before `i` have been seen to. */
  ghost predicate Visiting(t: seq<Slot>, dep: seq<int>, permute: seq<nat>, qpos: nat, due: seq<nat>, i: nat) {
    && |t| == |dep| && 0 < qpos && i <= |t| && Queue(t, permute, qpos, due) && (forall y :: 0 <= y < |due| ==> due[y] < qpos)
    && forall k :: 0 <= k < |t| ==> DepMid(t, dep, permute, qpos, i, k)
  }

  /** Between entries. */
  ghost predicate Settled(t: seq<Slot>, dep: seq<int>, permute: seq<nat>, qpos: nat, due: seq<nat>) {
    && |t| == |dep| && Queue(t, permute, qpos, due) && (forall y :: 0 <= y < |due| ==> due[y] <= qpos)
    && forall k :: 0 <= k < |t| ==> DepAt(t, dep, permute, qpos, qpos, k)
  }

  /** One more entry done: it comes off exactly what it is below. */
  lemma PendingLess(t: seq<Slot>, j: nat, permute: seq<nat>, q: nat)
    requires j < |t| && 0 < q <= |permute| && Distinct(permute) && InTable(t, permute)
    ensures var which := permute[q - 1];
            Pending(t, j, Elements(permute[..q])) == Pending(t, j, Elements(permute[..q - 1])) - {which}
    ensures Below(t, j, permute[q - 1]) <==> permute[q - 1] in Pending(t, j, Elements(permute[..q - 1]))
  {
    assert permute[..q] == permute[..q - 1] + [permute[q - 1]];
  }

  /** The test of the inner loop. */
  predicate TakesOff(t: seq<Slot>, dep: seq<int>, which: nat, i: nat)
    requires i < |t| == |dep| && which < |t|
  {
    dep[i] > 0 && Inside(t[i].prefix, t[which].prefix) && t[i].Real()
  }

  lemma SeenTo(t: seq<Slot>, dep: seq<int>, permute: seq<nat>, qpos: nat, due: seq<nat>, i: nat)
    requires Visiting(t, dep, permute, qpos, due, i) && i < |t| && !TakesOff(t, dep, permute[qpos - 1], i)
    ensures Visiting(t, dep, permute, qpos, due, i + 1)
  {
    PendingLess(t, i, permute, qpos);
    var next := i + 1;
    forall k | 0 <= k < |t|
      ensures DepMid(t, dep, permute, qpos, next, k)
    {
      assert DepMid(t, dep, permute, qpos, i, k);
    }
  }

  /** The slot loses one. If that was the last, it joins the queue. */
  lemma TakenOff(t: seq<Slot>, dep: seq<int>, permute: seq<nat>, qpos: nat, due: seq<nat>, i: nat)
    requires Visiting(t, dep, permute, qpos, due, i) && i < |t| && TakesOff(t, dep, permute[qpos - 1], i)
    ensures dep[i] != 1 ==> Visiting(t, dep[i := dep[i] - 1], permute, qpos, due, i + 1)
    ensures dep[i] == 1 ==> Visiting(t, dep[i := 0], permute + [i], qpos, due + [qpos - 1], i + 1)
  {
    assert DepMid(t, dep, permute, qpos, i, i);
    PendingLess(t, i, permute, qpos);
    var which := permute[qpos - 1];
    assert which in permute[..qpos];
    assert i !in permute && Below(t, i, which);
    var dep', next := dep[i := dep[i] - 1], i + 1;
    if dep[i] != 1 {
      forall k | 0 <= k < |t|
        ensures DepMid(t, dep', permute, qpos, next, k)
      {
        assert DepMid(t, dep, permute, qpos, i, k);
      }
    } else {
      assert |Pending(t, i, Elements(permute[..qpos]))| == 0;
      Joined(t, permute, qpos, due, i);
      var permute' := permute + [i];
      forall k | 0 <= k < |t|
        ensures DepMid(t, dep', permute', qpos, next, k)
      {
        assert DepMid(t, dep, permute, qpos, i, k);
        assert permute'[..qpos] == permute[..qpos] && permute'[..qpos - 1] == permute[..qpos - 1];
      }
    }
  }

  lemma Joined(t: seq<Slot>, permute: seq<nat>, qpos: nat, due: seq<nat>, i: nat)
    requires Queue(t, permute, qpos, due) && 0 < qpos && i < |t| && t[i].Real() && i !in permute
    requires Below(t, i, permute[qpos - 1]) && Pending(t, i, Elements(permute[..qpos])) == {} && forall y :: 0 <= y < |due| ==> due[y] < qpos
    ensures Queue(t, permute + [i], qpos, due + [qpos - 1])
  {
    var permute', due' := permute + [i], due + [qpos - 1];
    forall y | 0 <= y < |permute'|
      ensures Due(t, permute', due', y)
    {
      assert y < |permute| ==> Due(t, permute, due, y);
      assert permute'[..due'[y] + 1] == permute[..due'[y] + 1];
    }
  }

  lemma BeginEntry(t: seq<Slot>, dep: seq<int>, permute: seq<nat>, qpos: nat, due: seq<nat>)
    requires Settled(t, dep, permute, qpos, due) && qpos < |permute|
    ensures Visiting(t, dep[permute[qpos] := -1], permute, qpos + 1, due, 0)
  {
    var which, next := permute[qpos], qpos + 1;
    var dep' := dep[which := -1];
    assert permute[..next] == permute[..qpos] + [which];
    forall k | 0 <= k < |t|
      ensures DepMid(t, dep', permute, next, 0, k)
    {
      assert DepAt(t, dep, permute, qpos, qpos, k);
    }
  }

  lemma EndEntry(t: seq<Slot>, dep: seq<int>, permute: seq<nat>, qpos: nat, due: seq<nat>)
    requires Visiting(t, dep, permute, qpos, due, |t|)
    ensures Settled(t, dep, permute, qpos, due)
  {
    forall k | 0 <= k < |t|
      ensures DepAt(t, dep, permute, qpos, qpos, k)
    {
      assert DepMid(t, dep, permute, qpos, |t|, k);
    }
  }

  /** The queue is empty, and a slot with nothing below it joins. */
  lemma FirstJoins(t: seq<Slot>, dep: seq<int>, permute: seq<nat>, due: seq<nat>, i: nat)
    requires Settled(t, dep, permute, |permute|, due) && i < |t| && dep[i] == 0
    ensures i !in permute && t[i].Real() && Pending(t, i, {}) == {}
    ensures Settled(t, dep, permute + [i], |permute|, due + [|permute|])
  {
    assert permute[..|permute|] == permute;
    assert DepAt(t, dep, permute, |permute|, |permute|, i);
    var permute', due' := permute + [i], due + [|permute|];
    assert permute'[..|permute|] == permute;
    forall k | 0 <= k < |t|
      ensures DepAt(t, dep, permute', |permute|, |permute|, k)
    {
      assert DepAt(t, dep, permute, |permute|, |permute|, k);
    }
    forall y | 0 <= y < |permute'|
      ensures Due(t, permute', due', y)
    {
      if y < |permute| {
        assert Due(t, permute, due, y);
        assert permute'[..due'[y] + 1] == permute[..due'[y] + 1];
      }
    }
  }

  // ---- the assertion: something is always free

  lemma SomeMissing(t: seq<Slot>, permute: seq<nat>) returns (j: nat)
    requires Distinct(permute) && InTable(t, permute) && |permute| < |Reals(t)|
    ensures j < |t| && t[j].Real() && j !in permute
  {
    DistinctSize(permute);
    if forall j <- Reals(t) :: j in permute {
      assert Reals(t) <= Elements(permute);
      SubsetSize(Reals(t), Elements(permute));
      assert false;
    }
    j :| j in Reals(t) && j !in permute;
  }

  lemma {:induction false} SubsetSize(a: set<nat>, b: set<nat>)
    requires a <= b
    ensures |a| <= |b| && (|a| == |b| ==> a == b)
  {
    if a != {} {
      var x :| x in a;
      SubsetSize(a - {x}, b - {x});
    } else if |a| == |b| {
      assert b == {};
    }
  }

  /** Of the routes not yet placed, a longest one has nothing below it left: two routes are never below each other. */
  lemma {:induction false} SomeFree(t: seq<Slot>, at: map<Prefix, nat>, dep: seq<int>, permute: seq<nat>, due: seq<nat>, j: nat) returns (i: nat)
    requires Indexed(t, at) && Settled(t, dep, permute, |permute|, due) && j < |t| && t[j].Real() && j !in permute
    ensures i < |t| && dep[i] == 0
    decreases 32 - t[j].prefix.len
  {
    assert permute[..|permute|] == permute;
    assert DepAt(t, dep, permute, |permute|, |permute|, j);
    if dep[j] == 0 {
      i := j;
    } else {
      var left := Pending(t, j, Elements(permute));
      assert left != {};
      var k :| k in left;
      DeeperIsLonger(t, at, j, k);
      i := SomeFree(t, at, dep, permute, due, k);
    }
  }

  lemma DeeperIsLonger(t: seq<Slot>, at: map<Prefix, nat>, j: nat, k: nat)
    requires Indexed(t, at) && j < |t| && k < |t| && t[j].Real() && Below(t, j, k)
    ensures t[j].prefix.len < t[k].prefix.len <= 32
  {
    assert Canonical(t[j].prefix) && Canonical(t[k].prefix);
  }

  // ---- a table already sorted

  function Identity(n: nat): (s: seq<nat>)
    ensures |s| == n && forall i :: 0 <= i < n ==> s[i] == i
  {
    seq(n, i => i)
  }

  lemma InIdentity(n: nat, i: nat)
    ensures i in Identity(n) <==> i < n
  {
    if i < n {
      assert Identity(n)[i] == i;
    }
  }

  /** The table is as sorting leaves one. */
  ghost predicate Layered(t: seq<Slot>, due: seq<nat>) {
    Queue(t, Identity(|t|), |t|, due)
  }

  /** Sorting a layered table has so far put every route where it was. */
  ghost predicate Unmoved(t: seq<Slot>, permute: seq<nat>, qpos: nat, was: seq<nat>) {
    && |was| == |t| && permute == Identity(|permute|)
    && forall y :: |permute| <= y < |t| ==> was[y] >= qpos
  }

  /** In a layered table everything below an entry comes before what it was due after. */
  lemma LayeredBelow(t: seq<Slot>, was: seq<nat>, y: nat, i: nat)
    requires Layered(t, was) && y < |t| && i < |t| && Below(t, y, i)
    ensures i <= was[y] < y && Below(t, y, was[y])
  {
    assert Due(t, Identity(|t|), was, y);
    assert i in Pending(t, y, {});
    assert i in Identity(|t|)[..was[y] + 1];
  }

  lemma DueGrows(t: seq<Slot>, was: seq<nat>, k: nat, i: nat)
    requires Layered(t, was) && k <= i < |t|
    ensures was[k] <= was[i]
  {
  }

  /** While entry `qpos - 1` is gone over, the next to join is the next in the table. */
  lemma NextJoins(t: seq<Slot>, dep: seq<int>, permute: seq<nat>, qpos: nat, due: seq<nat>, i: nat, was: seq<nat>)
    requires Layered(t, was) && Visiting(t, dep, permute, qpos, due, i) && i < |t| && Unmoved(t, permute, qpos - 1, was)
    requires TakesOff(t, dep, permute[qpos - 1], i) && dep[i] == 1
    ensures i == |permute| && Unmoved(t, permute + [i], qpos - 1, was)
  {
    TakenOff(t, dep, permute, qpos, due, i);
    assert Due(t, permute + [i], due + [qpos - 1], |permute|);
    var which := permute[qpos - 1];
    assert DepMid(t, dep, permute, qpos, i, i);
    assert which in permute[..qpos];
    assert i !in permute && Below(t, i, which);
    LayeredBelow(t, was, i, which);
    assert was[i] in Pending(t, i, {});
    assert was[i] < qpos;
    var k := |permute|;
    InIdentity(k, i);
    DueGrows(t, was, k, i);
    if k < i {
      StillHeld(t, dep, permute, qpos, due, i, was, k);
    }
    assert permute + [i] == Identity(k + 1);
  }

  lemma StillHeld(t: seq<Slot>, dep: seq<int>, permute: seq<nat>, qpos: nat, due: seq<nat>, i: nat, was: seq<nat>, k: nat)
    requires Layered(t, was) && Visiting(t, dep, permute, qpos, due, i) && Unmoved(t, permute, qpos - 1, was)
    requires |permute| <= k < i
    ensures was[k] >= qpos
  {
    assert DepMid(t, dep, permute, qpos, i, k);
    assert Due(t, Identity(|t|), was, k);
    assert was[k] < k ==> was[k] in Pending(t, k, {});
    if was[k] == qpos - 1 {
      forall x | x in Pending(t, k, {})
        ensures x in Elements(permute[..qpos])
      {
        assert x in Identity(|t|)[..qpos];
        assert permute[x] == x;
      }
      NoneLeft(t, k, Elements(permute[..qpos]));
    }
  }

  lemma NoneLeft(t: seq<Slot>, k: nat, done: set<nat>)
    requires k < |t| && Pending(t, k, {}) <= done
    ensures Pending(t, k, done) == {}
  {
    assert Pending(t, k, done) <= Pending(t, k, {});
  }

  lemma EntryUnmoved(t: seq<Slot>, dep: seq<int>, permute: seq<nat>, qpos: nat, due: seq<nat>, was: seq<nat>)
    requires Layered(t, was) && Visiting(t, dep, permute, qpos, due, |t|) && Unmoved(t, permute, qpos - 1, was)
    ensures Unmoved(t, permute, qpos, was)
  {
    forall y | |permute| <= y < |t|
      ensures was[y] >= qpos
    {
      StillHeld(t, dep, permute, qpos, due, |t|, was, y);
    }
  }

  /** With the queue empty, the next of a layered table has nothing below it, and is the first such. */
  lemma FirstUnmoved(t: seq<Slot>, permute: seq<nat>, first: nat, was: seq<nat>)
    requires Layered(t, was) && Unmoved(t, permute, |permute|, was) && first < |t| && first !in permute
    requires forall k :: 0 <= k < first ==> k in permute || !t[k].Real() || Pending(t, k, {}) != {}
    ensures first == |permute| && Unmoved(t, permute + [first], |permute|, was)
  {
    var k := |permute|;
    InIdentity(k, first);
    assert Due(t, Identity(|t|), was, k) && Identity(|t|)[k] == k;
    assert permute + [first] == Identity(k + 1);
  }

  /** The same as `Pending` is counted: what lines 66-75 leave in `dep`. */
  ghost function Counted(t: seq<Slot>, j: nat, below: nat): set<nat>
    requires j < |t| && below <= |t|
  {
    set i: nat | i < below && Below(t, j, i)
  }

  /** What a slot that is dead is counted besides. */
  ghost function Extra(t: seq<Slot>, j: nat, below: nat): nat
    requires j < |t|
  {
    if t[j].Real() || below <= j then 0 else 1
  }

  lemma CountOne(t: seq<Slot>, j: nat, i: nat)
    requires j < |t| && i < |t|
    ensures |Counted(t, j, i + 1)| == |Counted(t, j, i)| + (if Below(t, j, i) then 1 else 0)
  {
    assert Counted(t, j, i + 1) == Counted(t, j, i) + (if Below(t, j, i) then {i} else {});
  }

  /** Lines 65-75: how many routes lie below each slot, and how many slots are dead. */
  method CountDeps(t: seq<Slot>) returns (dep: seq<int>, nunreal: nat)
    ensures Settled(t, dep, [], 0, []) && nunreal == |t| - |Reals(t)|
  {
    dep := seq(|t|, _ => 0);
    nunreal := 0;
    for i := 0 to |t|
      invariant |dep| == |t| && nunreal <= i
      invariant nunreal == i - |set k: nat | k < i && t[k].Real()|
      invariant forall j :: 0 <= j < |t| ==> dep[j] == |Counted(t, j, i)| + Extra(t, j, i)
    {
      assert (set k: nat | k < i + 1 && t[k].Real()) == (set k: nat | k < i && t[k].Real()) + (if t[i].Real() then {i} else {});
      forall j | 0 <= j < |t|
        ensures |Counted(t, j, i + 1)| == |Counted(t, j, i)| + (if Below(t, j, i) then 1 else 0)
      {
        CountOne(t, j, i);
      }
      if !t[i].Real() {
        dep, nunreal := dep[i := dep[i] + 1], nunreal + 1;
      } else {
        ghost var before := dep;
        for j := 0 to |t|
          invariant |dep| == |t|
          invariant forall k :: 0 <= k < |t| ==> dep[k] == before[k] + if k < j && Below(t, k, i) then 1 else 0
        {
          if Inside(t[j].prefix, t[i].prefix) && i != j {
            dep := dep[j := dep[j] + 1];
          }
        }
      }
    }
    assert (set k: nat | k < |t| && t[k].Real()) == Reals(t);
    CountsSettle(t, dep);
  }

  lemma CountsSettle(t: seq<Slot>, dep: seq<int>)
    requires |dep| == |t| && forall j :: 0 <= j < |t| ==> dep[j] == |Counted(t, j, |t|)| + Extra(t, j, |t|)
    ensures Settled(t, dep, [], 0, [])
  {
    forall j | 0 <= j < |t|
      ensures DepAt(t, dep, [], 0, 0, j)
    {
      assert Elements([][..0]) == {};
      assert Counted(t, j, |t|) == Pending(t, j, {});
    }
  }

  /** Lines 92-98: the queue's entry `qpos` is gone over. */
  method GoOver(t: seq<Slot>, dep0: seq<int>, permute0: seq<nat>, qpos: nat, ghost due0: seq<nat>, ghost was: seq<nat>)
    returns (dep: seq<int>, permute: seq<nat>, ghost due: seq<nat>)
    requires Settled(t, dep0, permute0, qpos, due0) && qpos < |permute0|
    requires Layered(t, was) ==> Unmoved(t, permute0, qpos, was)
    ensures Settled(t, dep, permute, qpos + 1, due) && permute0 <= permute
    ensures Layered(t, was) ==> Unmoved(t, permute, qpos + 1, was)
  {
    dep, permute, due := dep0, permute0, due0;
    var which := permute[qpos];
    dep := dep[which := -1];
    BeginEntry(t, dep0, permute, qpos, due);
    for i := 0 to |t|
      invariant Visiting(t, dep, permute, qpos + 1, due, i) && permute0 <= permute
      invariant Layered(t, was) ==> Unmoved(t, permute, qpos, was)
    {
      if TakesOff(t, dep, which, i) {
        TakenOff(t, dep, permute, qpos + 1, due, i);
        if Layered(t, was) && dep[i] == 1 {
          NextJoins(t, dep, permute, qpos + 1, due, i, was);
        }
        dep := dep[i := dep[i] - 1];
        if dep[i] == 0 {
          permute := permute + [i];
          due := due + [qpos];
        }
      } else {
        SeenTo(t, dep, permute, qpos + 1, due, i);
      }
    }
    EndEntry(t, dep, permute, qpos + 1, due);
    if Layered(t, was) {
      EntryUnmoved(t, dep, permute, qpos + 1, due, was);
    }
  }

  /** Slots before `first` are not to be joined any more. */
  ghost predicate Passed(t: seq<Slot>, permute: seq<nat>, first: nat) {
    first <= |t| && forall k {:trigger t[k]} | 0 <= k < first :: k in permute || !t[k].Real() || Pending(t, k, {}) != {}
  }

  /** Lines 82-85: the assertion that follows the loop holds. */
  method NextFirst(t: seq<Slot>, ghost at: map<Prefix, nat>, dep: seq<int>, permute: seq<nat>, ghost due: seq<nat>, from: nat)
    returns (first: nat)
    requires Indexed(t, at) && Settled(t, dep, permute, |permute|, due) && |permute| < |Reals(t)| && Passed(t, permute, from)
    ensures first < |t| && dep[first] == 0 && Passed(t, permute, first)
  {
    first := from;
    while first < |t| && dep[first] != 0
      invariant from <= first <= |t| && Passed(t, permute, first)
    {
      NotYetFree(t, dep, permute, due, first);
      first := first + 1;
    }
    ghost var j := SomeMissing(t, permute);
    ghost var i := SomeFree(t, at, dep, permute, due, j);
    FirstJoins(t, dep, permute, due, i);
  }

  lemma NotYetFree(t: seq<Slot>, dep: seq<int>, permute: seq<nat>, due: seq<nat>, k: nat)
    requires Settled(t, dep, permute, |permute|, due) && k < |t| && dep[k] != 0
    ensures k in permute || !t[k].Real() || Pending(t, k, {}) != {}
  {
    assert permute[..|permute|] == permute;
    assert DepAt(t, dep, permute, |permute|, |permute|, k);
    if Pending(t, k, {}) == {} {
      NoneLeft(t, k, Elements(permute));
    }
  }

  /** Lines 90-99. */
  method Drain(t: seq<Slot>, dep0: seq<int>, permute0: seq<nat>, qpos0: nat, ghost due0: seq<nat>, ghost was: seq<nat>)
    returns (dep: seq<int>, permute: seq<nat>, qpos: nat, ghost due: seq<nat>)
    requires Settled(t, dep0, permute0, qpos0, due0)
    requires Layered(t, was) ==> Unmoved(t, permute0, qpos0, was)
    ensures Settled(t, dep, permute, qpos, due) && qpos == |permute| && permute0 <= permute
    ensures Layered(t, was) ==> Unmoved(t, permute, qpos, was)
  {
    dep, permute, qpos, due := dep0, permute0, qpos0, due0;
    while qpos < |permute|
      invariant Settled(t, dep, permute, qpos, due) && permute0 <= permute
      invariant Layered(t, was) ==> Unmoved(t, permute, qpos, was)
      decreases |t| - qpos
    {
      InReals(t, permute);
      dep, permute, due := GoOver(t, dep, permute, qpos, due, was);
      qpos := qpos + 1;
    }
  }

  lemma InReals(t: seq<Slot>, permute: seq<nat>)
    requires Distinct(permute) && InTable(t, permute)
    ensures |permute| <= |Reals(t)| <= |t|
    ensures |permute| == |Reals(t)| ==> Elements(permute) == Reals(t)
  {
    DistinctSize(permute);
    SubsetSize(Elements(permute), Reals(t));
    DistinctSize(Identity(|t|));
    forall i | i in Reals(t)
      ensures i in Elements(Identity(|t|))
    {
      InIdentity(|t|, i);
    }
    SubsetSize(Reals(t), Elements(Identity(|t|)));
  }

  lemma StillPassed(t: seq<Slot>, permute: seq<nat>, longer: seq<nat>, first: nat)
    requires Passed(t, permute, first) && permute <= longer
    ensures Passed(t, longer, first)
  {
    assert longer == permute + longer[|permute|..];
  }

  /** Lines 77-101: the order the live routes are to take. */
  method Order(t: seq<Slot>, ghost at: map<Prefix, nat>, ghost was: seq<nat>) returns (permute: seq<nat>, ghost due: seq<nat>)
    requires Indexed(t, at)
    ensures |permute| == |Reals(t)| && Queue(t, permute, |permute|, due)
    ensures Layered(t, was) ==> permute == Identity(|permute|)
  {
    var dep, nunreal := CountDeps(t);
    permute, due := [], [];
    var first, qpos := 0, 0;
    while |permute| < |t| - nunreal
      invariant Settled(t, dep, permute, qpos, due) && qpos == |permute| && Passed(t, permute, first)
      invariant |permute| <= |Reals(t)|
      invariant Layered(t, was) ==> Unmoved(t, permute, qpos, was)
      decreases |t| - |permute|
    {
      first := NextFirst(t, at, dep, permute, due, first);
      FirstJoins(t, dep, permute, due, first);
      if Layered(t, was) {
        FirstUnmoved(t, permute, first, was);
      }
      ghost var before := permute;
      permute, due := permute + [first], due + [|permute|];
      dep, permute, qpos, due := Drain(t, dep, permute, qpos, due, was);
      StillPassed(t, before, permute, first);
      InReals(t, permute);
    }
  }

  // ---- the table permuted

  ghost predicate Permuted(t: seq<Slot>, new_: seq<Slot>, permute: seq<nat>) {
    && |new_| == |permute| && InTable(t, permute)
    && forall i {:trigger new_[i]} | 0 <= i < |new_| :: new_[i] == t[permute[i]].(extra := BEYOND)
  }

  /** Every route comes after all those below it. */
  ghost predicate Sorted(t: seq<Slot>) {
    forall i, j :: 0 <= i < |t| && 0 <= j < |t| && Below(t, j, i) ==> i < j
  }

  lemma PermutedBelow(t: seq<Slot>, new_: seq<Slot>, permute: seq<nat>, j: nat, i: nat)
    requires Permuted(t, new_, permute) && Distinct(permute) && i < |new_| && j < |new_|
    ensures Below(new_, j, i) <==> Below(t, permute[j], permute[i])
  {
  }

  lemma QueueSorts(t: seq<Slot>, new_: seq<Slot>, permute: seq<nat>, due: seq<nat>)
    requires Queue(t, permute, |permute|, due) && Permuted(t, new_, permute)
    ensures Sorted(new_)
  {
    forall i, j | 0 <= i < |new_| && 0 <= j < |new_| && Below(new_, j, i)
      ensures i < j
    {
      PermutedBelow(t, new_, permute, j, i);
      assert Due(t, permute, due, j);
      assert permute[i] in Pending(t, permute[j], {});
    }
  }

  lemma QueueLayers(t: seq<Slot>, new_: seq<Slot>, permute: seq<nat>, due: seq<nat>)
    requires Queue(t, permute, |permute|, due) && Permuted(t, new_, permute) && |permute| == |Reals(t)|
    ensures Layered(new_, due)
  {
    var id := Identity(|new_|);
    forall y | 0 <= y < |new_|
      ensures Due(new_, id, due, y)
    {
      assert Due(t, permute, due, y);
      forall i | i in Pending(new_, y, {})
        ensures permute[i] in Pending(t, permute[y], {}) && i <= due[y] < y
      {
        PermutedBelow(t, new_, permute, y, i);
      }
      if due[y] != y {
        PermutedBelow(t, new_, permute, y, due[y]);
        forall i | i in Pending(new_, y, {})
          ensures i in Elements(id[..due[y] + 1])
        {
          assert id[..due[y] + 1][i] == i;
        }
      }
    }
  }

  ghost function IndexOf(permute: seq<nat>, x: nat): (i: nat)
    requires x in permute
    ensures i < |permute| && permute[i] == x
  {
    var i :| 0 <= i < |permute| && permute[i] == x;
    i
  }

  /** Where each prefix has gone. */
  ghost function Moved(at: map<Prefix, nat>, permute: seq<nat>): map<Prefix, nat> {
    map p | p in at && at[p] in permute :: IndexOf(permute, at[p])
  }

  /** Nothing is lost: the live routes are where the permutation put them, and no others. */
  lemma PermutedIndexed(t: seq<Slot>, new_: seq<Slot>, at: map<Prefix, nat>, permute: seq<nat>)
    requires Indexed(t, at) && Permuted(t, new_, permute) && Distinct(permute) && Elements(permute) == Reals(t)
    ensures Indexed(new_, Moved(at, permute)) && AllReal(new_)
    ensures RoutesOf(new_, Moved(at, permute)) == RoutesOf(t, at)
  {
    var now := Moved(at, permute);
    forall p {:trigger at[p]} | p in at
      ensures p in now && t[at[p]].Real()
    {
      assert at[p] in Reals(t);
      assert at[p] in Elements(permute);
    }
    forall i {:trigger new_[i]} | 0 <= i < |new_|
      ensures new_[i].Real() && Canonical(new_[i].prefix) && new_[i].prefix in now && now[new_[i].prefix] == i
    {
      assert t[permute[i]].Real();
    }
  }

  lemma SortedSkips(t: seq<Slot>)
    requires Sorted(t)
    ensures Skips(t)
  {
    forall i, j {:trigger t[i], t[j]} | 0 <= i < j < |t| && j < t[i].extra && t[i].Real() && t[j].Real()
      ensures !Inside(t[i].prefix, t[j].prefix)
    {
      assert !Below(t, i, j);
    }
  }

  /** Where nothing moves, what was the longest match still is. */
  lemma StaysBest(t: seq<Slot>, new_: seq<Slot>, i: int, a: nat)
    requires Permuted(t, new_, Identity(|t|)) && Best(t, i, a)
    ensures Best(new_, i, a)
  {
    forall k {:trigger new_[k]} | 0 <= k < |new_|
      ensures new_[k] == t[k].(extra := BEYOND) && t[k].Real()
    {
      assert Identity(|t|)[k] == k;
    }
  }

  /** In a sorted table the first route to cover an address is its longest match, whatever the address. */
  lemma FirstIsBest(t: seq<Slot>, at: map<Prefix, nat>, a: nat)
    requires Indexed(t, at) && AllReal(t) && Sorted(t) && First(t, a) < |t|
    ensures Best(t, First(t, a), a)
  {
    var f := First(t, a);
    forall k {:trigger t[k]} | 0 <= k < |t| && t[k].Real() && t[k].Covers(a)
      ensures t[k].prefix.len <= t[f].prefix.len
    {
      if t[f].prefix.len < t[k].prefix.len {
        LongerIsInside(t, f, k, a);
        assert Below(t, f, k);
      }
    }
  }

  lemma Rebuilt(t: seq<Slot>, nt: seq<Slot>, at: map<Prefix, nat>, permute: seq<nat>, due: seq<nat>)
    requires Indexed(t, at) && Queue(t, permute, |permute|, due) && Permuted(t, nt, permute) && |permute| == |Reals(t)|
    ensures Indexed(nt, Moved(at, permute)) && RoutesOf(nt, Moved(at, permute)) == RoutesOf(t, at)
    ensures Skips(nt) && AllReal(nt) && Layered(nt, due)
  {
    InReals(t, permute);
    PermutedIndexed(t, nt, at, permute);
    QueueSorts(t, nt, permute, due);
    QueueLayers(t, nt, permute, due);
    SortedSkips(nt);
  }

  lemma KeptPlaces(t: seq<Slot>, nt: seq<Slot>, permute: seq<nat>, was: seq<nat>)
    requires Layered(t, was) && permute == Identity(|permute|) && |permute| == |Reals(t)| && Permuted(t, nt, permute)
    ensures SamePlaces(t, nt)
  {
    var id := Identity(|t|);
    DistinctSize(id);
    forall i | i in Elements(id)
      ensures i in Reals(t)
    {
      InIdentity(|t|, i);
      assert t[id[i]].Real();
    }
    InReals(t, id);
    forall i, a: nat {:trigger Best(t, i, a)} | Best(t, i, a)
      ensures Best(nt, i, a)
    {
      StaysBest(t, nt, i, a);
    }
  }

  /** No route has moved, and no answer by place has changed. */
  ghost predicate SamePlaces(t: seq<Slot>, nt: seq<Slot>) {
    && Permuted(t, nt, Identity(|t|))
    && forall i, a: nat {:trigger Best(t, i, a)} :: Best(t, i, a) ==> Best(nt, i, a)
  }

  /** Live routes only, sorted, and every one leading past the end. */
  ghost predicate Ready(t: seq<Slot>, at: map<Prefix, nat>, due: seq<nat>) {
    && Indexed(t, at) && Skips(t) && AllReal(t) && Layered(t, due)
    && forall i {:trigger t[i]} | 0 <= i < |t| :: t[i].extra == BEYOND
  }

  /** Lines 103-111. */
  method Permute(t: seq<Slot>, permute: seq<nat>) returns (nt: seq<Slot>)
    requires InTable(t, permute) && |permute| <= |t|
    ensures Permuted(t, nt, permute)
  {
    nt := t;
    for i := 0 to |permute|
      invariant |nt| == |t|
      invariant forall k {:trigger nt[k]} | 0 <= k < i :: nt[k] == t[permute[k]].(extra := BEYOND)
      invariant forall k {:trigger nt[k]} | i <= k < |nt| :: nt[k] == t[k]
    {
      if permute[i] != i {
        nt := nt[i := t[permute[i]]];
      }
      nt := nt[i := nt[i].(extra := BEYOND)];
    }
    nt := nt[..|permute|];
  }

  /**
   * `sort_table`: the live routes stay, and the dead slots go. Sorting a table that was sorted before
   * moves nothing, so that answers remembered by their place stay right.
   */
  method Sort(t: seq<Slot>, ghost at: map<Prefix, nat>, ghost was: seq<nat>, ghost a: nat, ghost entry: int, ghost a2: nat, ghost entry2: int)
    returns (nt: seq<Slot>, ghost now: map<Prefix, nat>, ghost due: seq<nat>)
    requires Indexed(t, at) && Remembers(t, a, entry, a2, entry2) && (Layered(t, was) || a == a2 == 0)
    ensures Ready(nt, now, due) && RoutesOf(nt, now) == RoutesOf(t, at)
    ensures Layered(t, was) ==> SamePlaces(t, nt)
    ensures Remembers(nt, a, entry, a2, entry2)
  {
    var permute;
    permute, due := Order(t, at, was);
    InReals(t, permute);
    nt := Permute(t, permute);
    now := Moved(at, permute);
    Rebuilt(t, nt, at, permute, due);
    if Layered(t, was) {
      KeptPlaces(t, nt, permute, was);
    }
  }

  class SortedTable {
    const linear: LinearTable
    ghost var due: seq<nat>

    ghost predicate Valid()
      reads this, linear
    {
      && Ready(linear.t, linear.at, due) && linear.zero == -1
      && Remembers(linear.t, linear.lastAddr, linear.lastEntry, linear.lastAddr2, linear.lastEntry2)
    }

    constructor ()
      ensures Valid() && fresh(linear) && linear.Routes() == map[]
    {
      linear := new LinearTable();
      due := [];
      new;
      assert Identity(|linear.t|) == [];
    }

    /** An answer remembered by its place stays right, even where the table was only sorted again. */
    method SortTable()
      requires linear.Sound() && (Layered(linear.t, due) || linear.lastAddr == linear.lastAddr2 == 0)
      modifies this, linear
      ensures Valid() && linear.Routes() == old(linear.Routes())
    {
      var nt;
      ghost var now;
      nt, now, due := Sort(linear.t, linear.at, due, linear.lastAddr, linear.lastEntry, linear.lastAddr2, linear.lastEntry2);
      linear.t, linear.zero, linear.at := nt, -1, now;
    }

    /** `add_route`. Replacing a route leaves every place as it was, and the answers remembered. */
    method AddRoute(p: Prefix, gw: int, port: int, allowReplace: bool) returns (status: Status, replaced: Option<Hop>)
      requires Valid() && Canonical(p) && port > DEAD
      modifies this, linear
      ensures Valid() && (status == Ok || status == Exists)
      ensures status == Exists <==> p in old(linear.at) && !allowReplace
      ensures replaced == if p in old(linear.at) then Some(old(linear.Routes())[p]) else None
      ensures linear.Routes() == if status == Ok then old(linear.Routes())[p := Hop(gw, port)] else old(linear.Routes())
    {
      status, replaced := linear.AddRoute(p, gw, port, allowReplace);
      if status == Exists {
        return;
      }
      if p in old(linear.at) {
        StillLayered(old(linear.t), linear.t, due);
      }
      SortTable();
    }

    lemma StillLayered(t: seq<Slot>, new_: seq<Slot>, due: seq<nat>)
      requires Layered(t, due) && |new_| == |t|
      requires forall i {:trigger new_[i]} | 0 <= i < |t| :: new_[i].prefix == t[i].prefix && new_[i].Real() == t[i].Real()
      ensures Layered(new_, due)
    {
      forall j | 0 <= j < |t|
        ensures Pending(new_, j, {}) == Pending(t, j, {})
      {
      }
      forall y | 0 <= y < |t|
        ensures Due(new_, Identity(|t|), due, y)
      {
        assert Due(t, Identity(|t|), due, y);
      }
    }

    method RemoveRoute(p: Prefix, gw: int, port: int) returns (status: Status, removed: Option<Hop>)
      requires Valid() && Canonical(p) && port > DEAD
      modifies this, linear
      ensures Valid() && (status == Ok || status == NoEntry)
      ensures status == Ok <==> old(linear.Holds(p, gw, port))
      ensures linear.Routes() == if status == Ok then old(linear.Routes()) - {p} else old(linear.Routes())
      ensures status == Ok ==> removed == Some(old(linear.Routes())[p])
    {
      status, removed := linear.RemoveRoute(p, gw, port);
      if status == Ok {
        SortTable();
      }
    }

    /** Lines 142-149: the first route to cover the address, which is right for every address. */
    method LookupEntry(a: nat) returns (found: int)
      requires Valid()
      ensures if found == -1 then NoMatch(linear.Routes(), a) else Best(linear.t, found, a)
      ensures found != -1 ==> RightAnswer(linear.Routes(), a, linear.t[found].port, linear.t[found].gw)
    {
      for i := 0 to |linear.t|
        invariant forall k {:trigger linear.t[k]} | 0 <= k < i :: !linear.t[k].Covers(a)
      {
        if linear.t[i].Covers(a) {
          FirstIs(linear.t, a, i);
          QueueSorts(linear.t, linear.t, Identity(|linear.t|), due);
          FirstIsBest(linear.t, linear.at, a);
          BestIsRight(linear.t, linear.at, i, a);
          return i;
        }
      }
      FirstIs(linear.t, a, |linear.t|);
      NoneCovers(linear.t, linear.at, a);
      return -1;
    }

    /** `push`: by its two last answers or by looking up, a packet goes by the longest match of its address. */
    method Push(a: nat) returns (sent: Option<Hop>)
      requires Valid()
      modifies linear`lastAddr, linear`lastEntry, linear`lastAddr2, linear`lastEntry2
      ensures Valid()
      ensures match sent
        case None => NoMatch(linear.Routes(), a)
        case Some(hop) => RightAnswer(linear.Routes(), a, hop.port, hop.gw) && !NoMatch(linear.Routes(), a)
      ensures if sent == None || old(linear.Remembered(a)) then unchanged(linear)
              else 0 <= linear.lastEntry < |linear.t| && sent == Some(linear.t[linear.lastEntry].Target()) && linear.MovedUp(a)
    {
      var ei := EntryFor(a);
      if ei < 0 {
        return None;
      }
      BestIsRight(linear.t, linear.at, ei, a);
      sent := Some(linear.t[ei].Target());
    }

    method EntryFor(a: nat) returns (ei: int)
      requires Valid()
      modifies linear`lastAddr, linear`lastEntry, linear`lastAddr2, linear`lastEntry2
      ensures Valid()
      ensures if ei < 0 then NoMatch(linear.Routes(), a) else Best(linear.t, ei, a)
      ensures if ei < 0 || old(linear.Remembered(a)) then unchanged(linear) else linear.lastEntry == ei && linear.MovedUp(a)
    {
      ei := Recall(a);
      if ei < 0 {
        ei := LookupEntry(a);
        if ei >= 0 {
          Remember(a, ei);
        }
      }
    }

    /** Lines 158-162. */
    method Recall(a: nat) returns (ei: int)
      requires Valid()
      ensures ei >= 0 ==> Best(linear.t, ei, a)
      ensures ei >= 0 <==> linear.Remembered(a)
    {
      if a != 0 && a == linear.lastAddr {
        ei := linear.lastEntry;
      } else if a != 0 && a == linear.lastAddr2 {
        ei := linear.lastEntry2;
      } else {
        ei := -1;
      }
    }

    /** Lines 165-170. */
    method Remember(a: nat, ei: int)
      requires Valid() && Best(linear.t, ei, a)
      modifies linear`lastAddr, linear`lastEntry, linear`lastAddr2, linear`lastEntry2
      ensures Valid() && linear.lastEntry == ei && linear.MovedUp(a)
    {
      linear.lastAddr2, linear.lastEntry2 := linear.lastAddr, linear.lastEntry;
      linear.lastAddr, linear.lastEntry := a, ei;
    }
  }
}
