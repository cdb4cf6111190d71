/**
 * The static search tree of the consistent hash table: `jvtree_t` and its
 * client `chash_t::hash` (bfclick/ip/siphmapper.hh).
 */
module JvTrees {
  import opened Powers

  datatype Entry = Entry(key: int, val: nat)

  ghost predicate Sorted(arr: seq<Entry>) {
    forall i, j :: 0 <= i < j < |arr| ==> arr[i].key <= arr[j].key
  }

  // ---- where the nodes of a heap stand in order

  /** A node of the full tree: it stands at `x`, the nodes below it less than `s` away. */
  datatype Spot = Spot(x: nat, s: nat)

  /** The node at heap index `i` of a full tree of `n - 1` nodes. */
  ghost function SpotOf(i: nat, n: nat): (p: Spot)
    ensures p.x >= p.s
  {
    if i == 0 then Spot(n / 2, n / 2)
    else
      var p := SpotOf((i - 1) / 2, n);
      if i % 2 == 1 then Spot(p.x - (p.s - p.s / 2), p.s / 2) else Spot(p.x + p.s / 2, p.s / 2)
  }

  /** Line 55: the last row has `(f - 1) / 2` nodes. */
  function FirstOdd(sz: nat, n: nat): int
    requires n > sz
  {
    2 * ((sz + 1) / 2) - 2 * ((n - 1 - sz) / 2) + 1
  }

  /** Line 64: how many nodes there are up to place `x` of the full tree. */
  function Rank(x: nat, f: int): int {
    if x < f then x else (x + f - 1) / 2
  }

  /** `n` is the power of two above `sz`. */
  ghost predicate Bounding(sz: nat, n: nat, rows: nat) {
    rows > 0 && n == Pow2(rows) && Pow2(rows - 1) <= sz < n
  }

  /** The nodes missing from the full tree are the last of its last row. */
  lemma LastRow(sz: nat, n: nat, rows: nat)
    requires Bounding(sz, n, rows)
    ensures FirstOdd(sz, n) == 2 * (sz - n / 2 + 1) + 1 && n % 2 == 0
    ensures Rank(0, FirstOdd(sz, n)) == 0 && Rank(n, FirstOdd(sz, n)) == sz + 1
  {
    if rows > 1 {
      assert n == 4 * Pow2(rows - 2);
    }
  }

  /** Line 63: where the `x` of the inner loop is after `k` turns. */
  ghost function Step(k: nat, s: nat): nat {
    if k == 0 then s else Step(k - 1, s) + 2 * s
  }

  lemma {:induction false} StepHalves(j: nat, s: nat)
    ensures Step(2 * j, s) + s == Step(j, 2 * s) && Step(2 * j + 1, s) == Step(j, 2 * s) + s
  {
    if j > 0 {
      StepHalves(j - 1, s);
      assert Step(2 * j, s) == Step(2 * (j - 1) + 1, s) + 2 * s;
    }
    assert Step(2 * j + 1, s) == Step(2 * j, s) + 2 * s;
  }

  lemma {:induction false} StepParity(k: nat, s: nat)
    ensures Step(k, s) >= s && (Step(k, s) - s) % 2 == 0 && (Step(k, s) + s) % 2 == 0
    ensures s == 1 ==> Step(k, s) == 2 * k + 1
  {
    if k > 0 {
      StepParity(k - 1, s);
    }
  }

  /** The node at place `k` of row `row`, rows and places counted from 0. */
  lemma {:induction false} RowSpot(row: nat, k: nat, rows: nat)
    requires row < rows && k < Pow2(row)
    ensures var s := Pow2(rows - row - 1); SpotOf(Pow2(row) - 1 + k, Pow2(rows)) == Spot(Step(k, s), s)
  {
    if row > 0 {
      RowSpot(row - 1, k / 2, rows);
      HalfIndex(Pow2(row - 1), k);
      Child(Pow2(row - 1) - 1 + k / 2, k % 2, k / 2, Pow2(rows - row - 1), Pow2(rows));
    }
  }

  lemma HalfIndex(h: nat, k: nat)
    requires h > 0
    ensures 2 * h - 1 + k == 2 * (h - 1 + k / 2) + 1 + k % 2 && k == 2 * (k / 2) + k % 2
  {
  }

  /** From a node to the node below it on one side. */
  lemma Child(i: nat, side: nat, j: nat, s: nat, n: nat)
    requires side < 2 && SpotOf(i, n) == Spot(Step(j, 2 * s), 2 * s)
    ensures SpotOf(2 * i + 1 + side, n) == Spot(Step(2 * j + side, s), s)
  {
    StepHalves(j, s);
    Sides(i, side, s);
  }

  lemma Sides(i: nat, side: nat, s: nat)
    requires side < 2
    ensures (2 * i + 1 + side - 1) / 2 == i && ((2 * i + 1 + side) % 2 == 1 <==> side == 0) && (2 * s) / 2 == s
  {
  }

  /** Every heap index is a place in a row. */
  lemma {:induction false} RowOf(i: nat, rows: nat) returns (row: nat, k: nat)
    requires i < Pow2(rows) - 1
    ensures row < rows && k < Pow2(row) && i == Pow2(row) - 1 + k
  {
    if i < Pow2(rows - 1) - 1 {
      row, k := RowOf(i, rows - 1);
    } else {
      row, k := rows - 1, i - (Pow2(rows - 1) - 1);
    }
  }

  // ---- what the subtree of a node holds

  /** The array index of the entry put at heap index `i`. */
  ghost function Source(i: nat, sz: nat, n: nat): int
    requires n > sz
  {
    Rank(SpotOf(i, n).x, FirstOdd(sz, n)) - 1
  }

  /** The stretch of the sorted array that the subtree at heap index `i` holds. */
  ghost function Low(i: nat, sz: nat, n: nat): int
    requires n > sz
  {
    if i == 0 then 0
    else if i % 2 == 1 then Low((i - 1) / 2, sz, n)
    else Source((i - 1) / 2, sz, n) + 1
  }

  ghost function High(i: nat, sz: nat, n: nat): int
    requires n > sz
  {
    if i == 0 then sz
    else if i % 2 == 1 then Source((i - 1) / 2, sz, n)
    else High((i - 1) / 2, sz, n)
  }

  /** The same by places of the full tree. */
  ghost predicate Stretched(i: nat, sz: nat, n: nat)
    requires n > sz
  {
    var p := SpotOf(i, n);
    Low(i, sz, n) == Rank(p.x - p.s, FirstOdd(sz, n)) && High(i, sz, n) == Rank(p.x + p.s, FirstOdd(sz, n)) - 1
  }

  lemma {:induction false} StretchSpot(i: nat, sz: nat, n: nat, rows: nat)
    requires Bounding(sz, n, rows) && i < n - 1
    ensures Stretched(i, sz, n)
  {
    if i == 0 {
      LastRow(sz, n, rows);
    } else {
      var up := (i - 1) / 2;
      StretchSpot(up, sz, n, rows);
      ParentSplits(i, n, rows);
      UpOf(i);
      ChildrenStretched(up, sz, n);
    }
  }

  lemma UpOf(i: nat)
    requires i > 0
    ensures i == 2 * ((i - 1) / 2) + 1 || i == 2 * ((i - 1) / 2) + 2
  {
  }

  /** A child has the part of its parent's stretch on its side of the parent's own entry. */
  lemma ChildrenStretched(up: nat, sz: nat, n: nat)
    requires n > sz && SpotOf(up, n).s % 2 == 0 && Stretched(up, sz, n)
    ensures Stretched(2 * up + 1, sz, n) && Stretched(2 * up + 2, sz, n)
  {
    StretchDown(up, sz, n);
    SpotDown(up, n);
    Ends(SpotOf(up, n));
  }

  lemma Ends(p: Spot)
    requires p.s % 2 == 0
    ensures p.s / 2 + p.s / 2 == p.s
  {
  }

  lemma SpotDown(up: nat, n: nat)
    ensures var p := SpotOf(up, n);
      && SpotOf(2 * up + 1, n) == Spot(p.x - (p.s - p.s / 2), p.s / 2)
      && SpotOf(2 * up + 2, n) == Spot(p.x + p.s / 2, p.s / 2)
  {
    LeftRight(up);
  }

  lemma StretchDown(up: nat, sz: nat, n: nat)
    requires n > sz
    ensures Low(2 * up + 1, sz, n) == Low(up, sz, n) && High(2 * up + 1, sz, n) == Source(up, sz, n)
    ensures Low(2 * up + 2, sz, n) == Source(up, sz, n) + 1 && High(2 * up + 2, sz, n) == High(up, sz, n)
  {
    LeftRight(up);
  }

  /** A node with nodes below it is not in the last row. */
  lemma ParentSplits(i: nat, n: nat, rows: nat)
    requires rows > 0 && n == Pow2(rows) && 0 < i < n - 1
    ensures (i - 1) / 2 < n - 1 && SpotOf((i - 1) / 2, n).s % 2 == 0
  {
    HalfOf(n, rows);
    NodeFacts((i - 1) / 2, n - 1, n, rows);
  }

  /** What is known of a node by its row. */
  lemma NodeFacts(i: nat, sz: nat, n: nat, rows: nat)
    requires Bounding(sz, n, rows) && i < n - 1
    ensures var x, s := SpotOf(i, n).x, SpotOf(i, n).s;
      && s > 0 && (x - s) % 2 == 0 && (x + s) % 2 == 0 && (s > 1 ==> s % 2 == 0 && 2 * i + 2 < n - 1 && i < n / 2 - 1)
      && (s == 1 ==> i >= n / 2 - 1 && x == 2 * (i - (n / 2 - 1)) + 1)
  {
    var row, k := RowOf(i, rows);
    RowSpot(row, k, rows);
    StepParity(k, Pow2(rows - row - 1));
    if row < rows - 1 {
      UpperRow(row, k, rows);
    } else {
      BottomRow(k, rows);
    }
  }

  lemma BottomRow(k: nat, rows: nat)
    requires rows > 0 && k < Pow2(rows - 1)
    ensures Pow2(rows - (rows - 1) - 1) == 1 && Pow2(rows) / 2 == Pow2(rows - 1) && Step(k, 1) == 2 * k + 1
  {
    StepParity(k, 1);
  }

  lemma UpperRow(row: nat, k: nat, rows: nat)
    requires row < rows - 1 && k < Pow2(row)
    ensures var i := Pow2(row) - 1 + k;
      Pow2(rows - row - 1) % 2 == 0 && Pow2(rows - row - 1) > 1 && 2 * i + 2 < Pow2(rows) - 1 && i < Pow2(rows) / 2 - 1
  {
    assert Pow2(rows - row - 1) == 2 * Pow2(rows - row - 2);
    assert Pow2(rows) == 2 * Pow2(rows - 1);
    RowsBelow(row, rows - 1);
  }

  lemma {:induction false} RowsBelow(row: nat, last: nat)
    requires row < last
    ensures 2 * Pow2(row) <= Pow2(last)
  {
    if row > 0 {
      RowsBelow(row - 1, last - 1);
    } else {
      assert Pow2(last) == 2 * Pow2(last - 1);
    }
  }

  /** A node there is holds one entry of its stretch, and its children the parts before and after it. */
  lemma Splits(i: nat, sz: nat, n: nat, rows: nat)
    requires Bounding(sz, n, rows) && i < sz
    ensures Low(i, sz, n) <= Source(i, sz, n) < High(i, sz, n)
    ensures Low(2 * i + 1, sz, n) == Low(i, sz, n) && High(2 * i + 1, sz, n) == Source(i, sz, n)
    ensures Low(2 * i + 2, sz, n) == Source(i, sz, n) + 1 && High(2 * i + 2, sz, n) == High(i, sz, n)
    ensures 2 * i + 2 < n - 1 || (2 * i + 1 >= n - 1 && Low(i, sz, n) == Source(i, sz, n) == High(i, sz, n) - 1)
  {
    LastRow(sz, n, rows);
    NodeFacts(i, sz, n, rows);
    StretchSpot(i, sz, n, rows);
    LeftRight(i);
    HalfOf(n, rows);
  }

  lemma LeftRight(i: nat)
    ensures (2 * i + 1 - 1) / 2 == i && (2 * i + 2 - 1) / 2 == i && (2 * i + 1) % 2 == 1 && (2 * i + 2) % 2 == 0
  {
  }

  lemma HalfOf(n: nat, rows: nat)
    requires rows > 0 && n == Pow2(rows)
    ensures n == 2 * (n / 2) && n / 2 == Pow2(rows - 1)
  {
  }

  /** There is no node exactly where there is nothing to hold. */
  lemma EmptyBelow(i: nat, sz: nat, n: nat, rows: nat)
    requires Bounding(sz, n, rows) && i < n - 1
    ensures i >= sz <==> Low(i, sz, n) == High(i, sz, n)
  {
    LastRow(sz, n, rows);
    NodeFacts(i, sz, n, rows);
    StretchSpot(i, sz, n, rows);
  }

  /** A heap layout of a sorted array: for each node its entry, and the stretch under it, under missing ones too. */
  datatype Layout = Layout(src: seq<int>, low: seq<int>, high: seq<int>)
  {
    ghost predicate For(sz: nat) {
      && |src| == sz && |low| == |high| == 2 * sz + 1
      && low[0] == 0 && high[0] == sz
      && (forall i :: 0 <= i < sz ==> Node(i, sz))
      && forall i :: sz <= i < 2 * sz + 1 ==> low[i] == high[i]
    }

    ghost predicate Node(i: nat, sz: nat)
      requires i < sz == |src| && |low| == |high| == 2 * sz + 1
    {
      && low[i] <= src[i] < high[i]
      && low[2 * i + 1] == low[i] && high[2 * i + 1] == src[i]
      && low[2 * i + 2] == src[i] + 1 && high[2 * i + 2] == high[i]
    }
  }

  ghost function LayoutOf(sz: nat, n: nat): Layout
    requires n > sz
  {
    Layout(seq(sz, i requires 0 <= i < sz => Source(i, sz, n)),
           seq(2 * sz + 1, i requires 0 <= i < 2 * sz + 1 => Low(i, sz, n)),
           seq(2 * sz + 1, i requires 0 <= i < 2 * sz + 1 => High(i, sz, n)))
  }

  /** The index formula lays any array out as a search tree. */
  lemma LaysOut(sz: nat, n: nat, rows: nat)
    requires Bounding(sz, n, rows)
    ensures LayoutOf(sz, n).For(sz)
  {
    var l := LayoutOf(sz, n);
    forall i | 0 <= i < sz
      ensures l.Node(i, sz)
    {
      Splits(i, sz, n, rows);
    }
    forall i | sz <= i < 2 * sz + 1
      ensures l.low[i] == l.high[i]
    {
      if i < n - 1 {
        EmptyBelow(i, sz, n, rows);
      } else {
        Splits((i - 1) / 2, sz, n, rows);
        Parents(i);
      }
    }
  }

  lemma Parents(i: nat)
    requires i > 0
    ensures i == 2 * ((i - 1) / 2) + 1 || i == 2 * ((i - 1) / 2) + 2
  {
  }

  // ---- building and searching

  lemma {:induction false} StepEnd(row: nat, rows: nat)
    requires row < rows
    ensures var s := Pow2(rows - row - 1); Step(Pow2(row), s) == Pow2(rows) + s
  {
    if row > 0 {
      StepEnd(row - 1, rows);
      StepHalves(Pow2(row - 1), Pow2(rows - row - 1));
      assert Pow2(rows - row) == 2 * Pow2(rows - row - 1);
    } else {
      assert Step(1, Pow2(rows - 1)) == Step(0, Pow2(rows - 1)) + 2 * Pow2(rows - 1);
    }
  }

  lemma {:induction false} StepOrder(k: nat, m: nat, s: nat)
    requires k < m
    ensures Step(k, s) + 2 * s <= Step(m, s)
    decreases m - k
  {
    if k + 1 < m {
      StepOrder(k + 1, m, s);
    }
  }

  /** The inner loop ends with its row. */
  lemma RowEnd(row: nat, k: nat, rows: nat)
    requires row < rows && k <= Pow2(row)
    ensures var s := Pow2(rows - row - 1);
      s > 0 && (Step(k, s) < Pow2(rows) <==> k < Pow2(row)) && (k < Pow2(row) ==> Step(k, s) + s <= Pow2(rows))
  {
    StepEnd(row, rows);
    if k < Pow2(row) {
      StepOrder(k, Pow2(row), Pow2(rows - row - 1));
    }
  }

  /** The entry for a heap index comes from inside the array. */
  lemma SourceInside(row: nat, k: nat, sz: nat, n: nat, rows: nat)
    requires Bounding(sz, n, rows) && row < rows && k < Pow2(row) && Pow2(row) - 1 + k < sz
    ensures var i := Pow2(row) - 1 + k;
      0 <= Source(i, sz, n) < sz && Source(i, sz, n) == Rank(Step(k, Pow2(rows - row - 1)), FirstOdd(sz, n)) - 1
  {
    var i := Pow2(row) - 1 + k;
    RowSpot(row, k, rows);
    RowEnd(row, k, rows);
    Splits(i, sz, n, rows);
    LastRow(sz, n, rows);
  }

  /** What the tree read in order is: left subtree, node, right subtree. */
  ghost function Walk(tree: seq<Entry>, i: nat): seq<Entry>
    decreases if i < |tree| then |tree| - i else 0
  {
    if i >= |tree| then [] else Walk(tree, 2 * i + 1) + [tree[i]] + Walk(tree, 2 * i + 2)
  }

  /** Every heap index holds the entry it should. */
  ghost predicate Laid(tree: seq<Entry>, arr: seq<Entry>, l: Layout) {
    && |tree| == |arr| && l.For(|arr|)
    && forall i :: 0 <= i < |tree| ==> 0 <= l.src[i] < |arr| && tree[i] == arr[l.src[i]]
  }

  /** The subtree at an index, read in order, is a stretch of the array. */
  lemma {:induction false} WalkIsStretch(tree: seq<Entry>, arr: seq<Entry>, l: Layout, i: nat)
    requires Laid(tree, arr, l) && i < 2 * |arr| + 1 && 0 <= l.low[i] && l.high[i] <= |arr|
    ensures l.low[i] <= l.high[i] && Walk(tree, i) == arr[l.low[i]..l.high[i]]
    decreases 2 * |arr| + 1 - i
  {
    if i < |arr| {
      assert l.Node(i, |arr|);
      WalkIsStretch(tree, arr, l, 2 * i + 1);
      WalkIsStretch(tree, arr, l, 2 * i + 2);
      var a := l.src[i];
      assert arr[l.low[i]..l.high[i]] == arr[l.low[i]..a] + [arr[a]] + arr[a + 1..l.high[i]];
    }
  }

  /** The whole tree read in order is the array: every entry is placed once, and in search order. */
  lemma WalkIsArray(tree: seq<Entry>, arr: seq<Entry>, l: Layout)
    requires Laid(tree, arr, l)
    ensures Walk(tree, 0) == arr
  {
    WalkIsStretch(tree, arr, l, 0);
    assert arr[0..|arr|] == arr;
  }

  class JvTree {
    const num: nat
    const tree: array<Entry>
    ghost const arr: seq<Entry>
    ghost const layout: Layout

    /** The tree of a sorted array. */
    ghost predicate Valid()
      reads tree
    {
      tree.Length == num == |arr| && Sorted(arr) && Laid(tree[..], arr, layout)
    }

    /** Lines 74-82. */
    static method Next2Pow(i: nat) returns (r: nat, ghost p: nat)
      ensures r == Pow2(p) && p > 0 && (if i == 0 then r == 2 else Pow2(p - 1) <= i < Pow2(p))
    {
      var tmp := i / 2;
      var count := 1;
      assert Pow2(1) == 2 && Pow2(0) == 1;
      while tmp > 0
        invariant count > 0 && if i == 0 then count == 1 && tmp == 0 else Pow2(count - 1) <= i
        invariant tmp * Pow2(count) <= i < (tmp + 1) * Pow2(count)
      {
        Halving(tmp, Pow2(count), i, Pow2(count + 1));
        tmp := tmp / 2;
        count := count + 1;
      }
      p := count;
      r := 1;
      for k := 0 to count
        invariant r == Pow2(k)
      {
        r := r * 2;
      }
    }

    /** Lines 62-69 for one row. */
    static method FillRow(arr: seq<Entry>, out: array<Entry>, n: nat, s: nat, start: nat, ghost row: nat, ghost rows: nat)
      returns (to: nat)
      requires out.Length == |arr| && Bounding(|arr|, n, rows) && row < rows && s == Pow2(rows - row - 1)
      requires start == Pow2(row) - 1 < |arr|
      requires forall i :: 0 <= i < start ==> Placed(out[..], arr, i, n)
      modifies out
      ensures to <= |arr| && (to == |arr| || to == Pow2(row + 1) - 1)
      ensures forall i :: 0 <= i < to ==> Placed(out[..], arr, i, n)
    {
      var sz := |arr|;
      var f := FirstOdd(sz, n);
      var x := s;
      to := start;
      ghost var k := 0;
      RowEnd(row, k, rows);
      while x < n && to < sz
        invariant k <= Pow2(row) && x == Step(k, s) && to == Pow2(row) - 1 + k <= sz
        invariant forall i :: 0 <= i < to ==> Placed(out[..], arr, i, n)
        decreases sz - to
      {
        RowEnd(row, k, rows);
        SourceInside(row, k, sz, n, rows);
        var from := Rank(x, f);
        ghost var before := out[..];
        out[to] := arr[from - 1];
        StillPlaced(before, out[..], arr, to, n);
        to := to + 1;
        x := x + 2 * s;
        k := k + 1;
      }
      RowEnd(row, k, rows);
    }

    /** Lines 45-70, of any array; `arr` is what `click_qsort` makes of it. */
    constructor (ghost given: seq<Entry>, arr: seq<Entry>)
      requires Sorted(arr) && multiset(arr) == multiset(given)
      ensures Valid() && this.arr == arr && fresh(tree)
      ensures Walk(tree[..], 0) == arr && multiset(Walk(tree[..], 0)) == multiset(given)
    {
      var sz := |arr|;
      var out := new Entry[sz];
      var n, rows := Next2Pow(sz);
      if sz > 0 {
        LaysOut(sz, n, rows);
      }
      var d, s, to := n, n / 2, 0;
      ghost var row := 0;
      while s > 0 && to < sz
        invariant 0 <= to <= sz && row <= rows
        invariant to < sz ==> d == 2 * s && to == Pow2(row) - 1 && row < rows && s == Pow2(rows - row - 1)
        invariant forall i :: 0 <= i < to ==> Placed(out[..], arr, i, n)
        decreases s
      {
        to := FillRow(arr, out, n, s, to, row, rows);
        RowsLeft(row, rows, sz, n, to);
        d := s;
        s := s / 2;
        row := row + 1;
      }
      this.num, this.tree, this.arr := sz, out, arr;
      this.layout := if sz > 0 then LayoutOf(sz, n) else Layout([], [0], [0]);
      new;
      if sz > 0 {
        PlacedAll(out[..], arr, n);
      }
      WalkIsArray(tree[..], arr, layout);
    }

    /** Lines 87-106. The index of a least entry with a key not below `k`; the root if there is none. */
    method Search(k: int) returns (r: nat)
      requires Valid() && num > 0
      ensures r < num
      ensures if forall e <- arr :: e.key < k then r == 0
              else tree[r].key >= k && tree[r] in arr && forall e <- arr :: e.key >= k ==> e.key >= tree[r].key
    {
      var i := 0;
      var ret: int := -1;
      while i < num
        invariant i < 2 * num + 1 && -1 <= ret < num && 0 <= layout.low[i] <= layout.high[i] <= num
        invariant forall j :: 0 <= j < layout.low[i] ==> arr[j].key < k
        invariant forall j :: layout.high[i] <= j < num ==> arr[j].key > k
        invariant if ret < 0 then layout.high[i] == num else layout.high[i] < num && tree[ret] == arr[layout.high[i]]
        decreases 2 * num + 1 - i
      {
        assert layout.Node(i, num);
        assert tree[..][i] == arr[layout.src[i]];
        if k == tree[i].key {
          return i;
        } else if k > tree[i].key {
          i := 2 * i + 2;
        } else {
          ret := i;
          i := 2 * i + 1;
        }
      }
      r := if ret >= 0 then ret else 0;
    }
  }

  /** Heap index `i` of `out` holds the entry it should. */
  ghost predicate Placed(out: seq<Entry>, arr: seq<Entry>, i: nat, n: nat)
    requires i < |out| == |arr| < n
  {
    0 <= Source(i, |arr|, n) < |arr| && out[i] == arr[Source(i, |arr|, n)]
  }

  lemma StillPlaced(before: seq<Entry>, out: seq<Entry>, arr: seq<Entry>, to: nat, n: nat)
    requires to < |before| == |out| == |arr| < n && forall i :: 0 <= i < to ==> before[i] == out[i]
    requires forall i :: 0 <= i < to ==> Placed(before, arr, i, n)
    ensures forall i :: 0 <= i < to ==> Placed(out, arr, i, n)
  {
    forall i | 0 <= i < to
      ensures Placed(out, arr, i, n)
    {
      assert Placed(before, arr, i, n);
    }
  }

  lemma RowsLeft(row: nat, rows: nat, sz: nat, n: nat, to: nat)
    requires Bounding(sz, n, rows) && row < rows && to <= sz && (to == sz || to == Pow2(row + 1) - 1)
    ensures to < sz ==> row + 1 < rows && Pow2(rows - row - 1) == 2 * Pow2(rows - row - 2)
  {
  }

  lemma PlacedAll(out: seq<Entry>, arr: seq<Entry>, n: nat)
    requires 0 < |out| == |arr| < n && LayoutOf(|arr|, n).For(|arr|)
    requires forall i :: 0 <= i < |out| ==> Placed(out, arr, i, n)
    ensures Laid(out, arr, LayoutOf(|arr|, n))
  {
    var l := LayoutOf(|arr|, n);
    forall i | 0 <= i < |out|
      ensures 0 <= l.src[i] < |arr| && out[i] == arr[l.src[i]]
    {
      assert Placed(out, arr, i, n);
    }
  }

  lemma Halving(tmp: nat, scale: nat, i: nat, double: nat)
    requires tmp > 0 && scale > 0 && tmp * scale <= i < (tmp + 1) * scale && double == 2 * scale
    ensures scale <= i && (tmp / 2) * double <= i < (tmp / 2 + 1) * double
  {
    HalvingBy(tmp, tmp / 2, scale, i, double);
  }

  lemma HalvingBy(tmp: nat, q: nat, scale: nat, i: nat, double: nat)
    requires tmp > 0 && scale > 0 && tmp * scale <= i < (tmp + 1) * scale && double == 2 * scale
    requires tmp == 2 * q || tmp == 2 * q + 1
    ensures scale <= i && q * double <= i < (q + 1) * double
  {
    MulAway(tmp, scale);
    var t := q * scale;
    assert q * double == 2 * t && (q + 1) * double == 2 * t + 2 * scale;
    assert (tmp + 1) * scale == tmp * scale + scale;
    if tmp == 2 * q {
      assert tmp * scale == 2 * t;
    } else {
      assert tmp * scale == 2 * t + scale;
    }
  }
}
