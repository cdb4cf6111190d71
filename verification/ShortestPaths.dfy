/** All-pairs shortest paths with next hops, in place: `calc_shortest_path` (util.c). */
module ShortestPaths {
  import opened Results

  const INFINITY := 999999999

  datatype Cell = Cell(length: int, next: int)

  datatype Link = Link(from: int, to: int, weight: int)

  type Matrix = seq<seq<Cell>>

  ghost predicate Square(m: Matrix, n: nat) {
    |m| == n && forall i :: 0 <= i < n ==> |m[i]| == n
  }

  // ---- the graph

  /** Line 31 skips a link whose ends are both -1; the others join two nodes. */
  ghost predicate LinkOk(l: Link, n: nat) {
    (l.from == -1 && l.to == -1) || (0 <= l.from < n && 0 <= l.to < n && l.from != l.to && 0 <= l.weight < 999999999)
  }

  ghost predicate LinksOk(links: seq<Link>, n: nat) {
    forall k :: 0 <= k < |links| ==> LinkOk(links[k], n)
  }

  ghost predicate Joins(l: Link, i: nat, j: nat) {
    (l.from == i && l.to == j) || (l.from == j && l.to == i)
  }

  /** The weight last recorded for a pair of nodes, in either direction. */
  ghost function Weight(links: seq<Link>, i: nat, j: nat): Option<int> {
    if links == [] then None
    else
      var l := links[|links| - 1];
      if Joins(l, i, j) then Some(l.weight) else Weight(links[..|links| - 1], i, j)
  }

  lemma {:induction false} WeightOk(links: seq<Link>, n: nat, i: nat, j: nat)
    requires LinksOk(links, n) && Weight(links, i, j).Some?
    ensures i < n && j < n && i != j && 0 <= Weight(links, i, j).value < INFINITY
  {
    assert LinkOk(links[|links| - 1], n);
    if !Joins(links[|links| - 1], i, j) {
      WeightOk(links[..|links| - 1], n, i, j);
    }
  }

  /** A walk from node to node along links. */
  ghost predicate Walk(links: seq<Link>, p: seq<nat>) {
    p != [] && forall k :: 0 <= k && k + 1 < |p| ==> Joined(links, p, k)
  }

  ghost predicate Joined(links: seq<Link>, p: seq<nat>, k: nat)
    requires k + 1 < |p|
  {
    Weight(links, p[k], p[k + 1]).Some?
  }

  ghost function Length(links: seq<Link>, p: seq<nat>): int
    requires Walk(links, p)
  {
    if |p| == 1 then 0
    else
      assert Joined(links, p, 0);
      WalkRest(links, p);
      Weight(links, p[0], p[1]).value + Length(links, p[1..])
  }

  lemma WalkRest(links: seq<Link>, p: seq<nat>)
    requires Walk(links, p) && |p| > 1
    ensures Walk(links, p[1..])
  {
    forall k | 0 <= k && k + 1 < |p[1..]|
      ensures Joined(links, p[1..], k)
    {
      assert Joined(links, p, k + 1);
    }
  }

  ghost predicate Between(links: seq<Link>, p: seq<nat>, i: nat, j: nat) {
    Walk(links, p) && p[0] == i && p[|p| - 1] == j
  }

  /** Two walks end to end. */
  lemma {:induction false} Concatenate(links: seq<Link>, p: seq<nat>, q: seq<nat>) returns (r: seq<nat>)
    requires Walk(links, p) && Walk(links, q) && p[|p| - 1] == q[0]
    ensures Between(links, r, p[0], q[|q| - 1]) && Length(links, r) == Length(links, p) + Length(links, q)
  {
    if |p| == 1 {
      r := q;
    } else {
      WalkRest(links, p);
      var rest := Concatenate(links, p[1..], q);
      r := [p[0]] + rest;
      assert Joined(links, p, 0) && r[1..] == rest;
      forall k | 0 <= k && k + 1 < |r|
        ensures Joined(links, r, k)
      {
        assert k > 0 ==> Joined(links, rest, k - 1);
      }
    }
  }

  // ---- what a matrix says of the graph

  /** Line 46-51, for one pair. */
  function Relax(m: Matrix, k: nat, i: nat, j: nat): Cell
    requires k < |m| && i < |m| && j < |m[i]| && k < |m[i]| && j < |m[k]|
  {
    if m[i][k].length + m[k][j].length < m[i][j].length then Cell(m[i][k].length + m[k][j].length, m[i][k].next)
    else m[i][j]
  }

  ghost predicate Relaxed(m: Matrix, m': Matrix, k: nat, n: nat)
    requires Square(m, n) && Square(m', n) && k < n
  {
    forall i, j :: 0 <= i < n && 0 <= j < n ==> m'[i][j] == Relax(m, k, i, j)
  }

  /** Lengths lie between nothing and infinity, and are no more than a direct link's. */
  ghost predicate Bounded(m: Matrix, links: seq<Link>, n: nat)
    requires Square(m, n)
  {
    && (forall i :: 0 <= i < n ==> m[i][i] == Cell(0, i))
    && (forall i, j :: 0 <= i < n && 0 <= j < n ==> 0 <= m[i][j].length <= INFINITY)
    && forall i, j :: 0 <= i < n && 0 <= j < n && Weight(links, i, j).Some? ==> m[i][j].length <= Weight(links, i, j).value
  }

  /** A finite length is that of some walk. */
  ghost predicate Walked(m: Matrix, links: seq<Link>, i: nat, j: nat)
    requires i < |m| && j < |m[i]|
  {
    m[i][j].length < INFINITY ==> exists p :: Between(links, p, i, j) && Length(links, p) == m[i][j].length
  }

  /** No way through `k` is shorter. */
  ghost predicate Direct(m: Matrix, n: nat, k: nat)
    requires Square(m, n) && k < n
  {
    forall i, j :: 0 <= i < n && 0 <= j < n ==> m[i][j].length <= m[i][k].length + m[k][j].length
  }

  /** The next hop of a reachable node is a neighbour, no further from it than it should be. */
  ghost predicate Hop(m: Matrix, links: seq<Link>, n: nat, i: nat, j: nat)
    requires Square(m, n) && i < n && j < n
  {
    var x := m[i][j].next;
    i != j && m[i][j].length < INFINITY ==>
      0 <= x < n && Weight(links, i, x).Some? && Weight(links, i, x).value + m[x][j].length <= m[i][j].length
  }

  ghost predicate Good(m: Matrix, links: seq<Link>, n: nat)
    requires Square(m, n)
  {
    && Bounded(m, links, n)
    && (forall i, j :: 0 <= i < n && 0 <= j < n ==> Walked(m, links, i, j))
    && forall i, j :: 0 <= i < n && 0 <= j < n ==> Hop(m, links, n, i, j)
  }

  /** A turn of the outer loop keeps every ordering through the nodes before, and adds one more. */
  lemma RelaxDirect(m: Matrix, m': Matrix, n: nat, k: nat, l: nat)
    requires Square(m, n) && Square(m', n) && k < n && l < n && Relaxed(m, m', k, n)
    requires m[k][k].length == 0 && forall i, j :: 0 <= i < n && 0 <= j < n ==> m[i][j].length >= 0
    requires l == k || Direct(m, n, l)
    ensures Direct(m', n, l)
  {
    forall i, j | 0 <= i < n && 0 <= j < n
      ensures m'[i][j].length <= m'[i][l].length + m'[l][j].length
    {
      assert m'[i][j] == Relax(m, k, i, j) && m'[i][l] == Relax(m, k, i, l) && m'[l][j] == Relax(m, k, l, j);
      if l != k {
        assert m[i][j].length <= m[i][l].length + m[l][j].length;
        assert m[k][j].length <= m[k][l].length + m[l][j].length;
        assert m[i][k].length <= m[i][l].length + m[l][k].length;
      }
    }
  }

  lemma RelaxGood(m: Matrix, m': Matrix, links: seq<Link>, n: nat, k: nat)
    requires Square(m, n) && Square(m', n) && k < n && Relaxed(m, m', k, n) && Good(m, links, n)
    ensures Good(m', links, n)
  {
    forall i, j | 0 <= i < n && 0 <= j < n
      ensures Walked(m', links, i, j) && Hop(m', links, n, i, j)
    {
      RelaxWalked(m, m', links, n, k, i, j);
      RelaxHop(m, m', links, n, k, i, j);
    }
  }

  lemma RelaxWalked(m: Matrix, m': Matrix, links: seq<Link>, n: nat, k: nat, i: nat, j: nat)
    requires Square(m, n) && Square(m', n) && k < n && i < n && j < n && Relaxed(m, m', k, n) && Good(m, links, n)
    ensures Walked(m', links, i, j)
  {
    assert m'[i][j] == Relax(m, k, i, j);
    assert Walked(m, links, i, j) && Walked(m, links, i, k) && Walked(m, links, k, j);
    if m[i][k].length + m[k][j].length < m[i][j].length {
      var p :| Between(links, p, i, k) && Length(links, p) == m[i][k].length;
      var q :| Between(links, q, k, j) && Length(links, q) == m[k][j].length;
      var r := Concatenate(links, p, q);
    }
  }

  lemma RelaxHop(m: Matrix, m': Matrix, links: seq<Link>, n: nat, k: nat, i: nat, j: nat)
    requires Square(m, n) && Square(m', n) && k < n && i < n && j < n && Relaxed(m, m', k, n) && Good(m, links, n)
    ensures Hop(m', links, n, i, j)
  {
    assert m'[i][j] == Relax(m, k, i, j);
    assert Hop(m, links, n, i, j) && Hop(m, links, n, i, k);
    if i != j && m'[i][j].length < INFINITY {
      var x := m'[i][j].next;
      assert m[k][k] == Cell(0, k);
      assert m'[x][j] == Relax(m, k, x, j);
    }
  }

  // ---- what the last matrix says

  /** With no shorter way through any node, no walk is shorter than the length stored. */
  lemma {:induction false} NoWalkShorter(m: Matrix, links: seq<Link>, n: nat, p: seq<nat>)
    requires Square(m, n) && LinksOk(links, n) && Bounded(m, links, n) && forall k :: 0 <= k < n ==> Direct(m, n, k)
    requires Walk(links, p) && p[0] < n
    ensures p[|p| - 1] < n && m[p[0]][p[|p| - 1]].length <= Length(links, p)
  {
    if |p| > 1 {
      assert Joined(links, p, 0);
      WeightOk(links, n, p[0], p[1]);
      WalkRest(links, p);
      NoWalkShorter(m, links, n, p[1..]);
      assert Direct(m, n, p[1]);
    }
  }

  ghost predicate Distance(links: seq<Link>, i: nat, j: nat, d: int) {
    && (exists p :: Between(links, p, i, j) && Length(links, p) == d)
    && forall p :: Between(links, p, i, j) ==> d <= Length(links, p)
  }

  ghost predicate Shortest(m: Matrix, links: seq<Link>, i: nat, j: nat)
    requires i < |m| && j < |m[i]|
  {
    && m[i][j].length <= 999999999
    && (m[i][j].length < 999999999 ==> Distance(links, i, j, m[i][j].length))
    && (m[i][j].length == 999999999 ==> forall p :: Between(links, p, i, j) ==> 999999999 <= Length(links, p))
  }

  lemma AllShortest(m: Matrix, links: seq<Link>, n: nat, i: nat, j: nat)
    requires Square(m, n) && LinksOk(links, n) && Good(m, links, n) && forall k :: 0 <= k < n ==> Direct(m, n, k)
    requires i < n && j < n
    ensures Shortest(m, links, i, j)
  {
    forall p | Between(links, p, i, j)
      ensures m[i][j].length <= Length(links, p)
    {
      NoWalkShorter(m, links, n, p);
    }
    assert Walked(m, links, i, j);
  }

  ghost predicate FollowsNext(m: Matrix, n: nat, p: seq<nat>, j: nat)
    requires Square(m, n) && j < n
  {
    forall k :: 0 <= k && k + 1 < |p| ==> p[k] < n && p[k + 1] == m[p[k]][j].next
  }

  ghost predicate Positive(links: seq<Link>) {
    forall k :: 0 <= k < |links| ==> links[k].from != -1 ==> links[k].weight > 0
  }

  lemma {:induction false} PositiveWeight(links: seq<Link>, n: nat, i: nat, j: nat)
    requires Positive(links) && Weight(links, i, j).Some?
    ensures Weight(links, i, j).value > 0
  {
    if !Joins(links[|links| - 1], i, j) {
      PositiveWeight(links[..|links| - 1], n, i, j);
    }
  }

  /** Going to the next hop, again and again, arrives, by a walk of exactly the length stored. */
  lemma {:induction false} NextArrives(m: Matrix, links: seq<Link>, n: nat, i: nat, j: nat) returns (p: seq<nat>)
    requires Square(m, n) && LinksOk(links, n) && Good(m, links, n) && Positive(links)
    requires forall k :: 0 <= k < n ==> Direct(m, n, k)
    requires i < n && j < n && m[i][j].length < INFINITY
    ensures Between(links, p, i, j) && FollowsNext(m, n, p, j) && Length(links, p) == m[i][j].length
    decreases m[i][j].length
  {
    if i == j {
      p := [i];
    } else {
      assert Hop(m, links, n, i, j);
      var x := m[i][j].next;
      PositiveWeight(links, n, i, x);
      var rest := NextArrives(m, links, n, x, j);
      p := [i] + rest;
      assert p[1..] == rest;
      forall k | 0 <= k && k + 1 < |p|
        ensures Joined(links, p, k) && p[k] < n && p[k + 1] == m[p[k]][j].next
      {
        assert k > 0 ==> Joined(links, rest, k - 1) && p[k] == rest[k - 1];
      }
      NoWalkShorter(m, links, n, p);
    }
  }

  // ---- the matrix in place

  ghost function Rows(spath: array2<Cell>): (m: Matrix)
    reads spath
    ensures |m| == spath.Length0 && forall i :: 0 <= i < |m| ==> |m[i]| == spath.Length1
    ensures forall i, j :: 0 <= i < |m| && 0 <= j < spath.Length1 ==> m[i][j] == spath[i, j]
  {
    seq(spath.Length0, i requires 0 <= i < spath.Length0 reads spath =>
      seq(spath.Length1, j requires 0 <= j < spath.Length1 reads spath => spath[i, j]))
  }

  /** What the first two loops leave for a pair. */
  ghost function Recorded(links: seq<Link>, i: nat, j: nat): Cell {
    if i == j then Cell(0, i)
    else match Weight(links, i, j)
      case None => Cell(INFINITY, -1)
      case Some(w) => Cell(w, j)
  }

  lemma RecordedGood(m: Matrix, links: seq<Link>, n: nat)
    requires Square(m, n) && LinksOk(links, n)
    requires forall i, j :: 0 <= i < n && 0 <= j < n ==> m[i][j] == Recorded(links, i, j)
    ensures Good(m, links, n)
  {
    forall i, j | 0 <= i < n && 0 <= j < n
      ensures Walked(m, links, i, j) && Hop(m, links, n, i, j) && 0 <= m[i][j].length <= INFINITY
      ensures Weight(links, i, j).Some? ==> m[i][j].length <= Weight(links, i, j).value
    {
      if i == j {
        assert Between(links, [i], i, j) && Length(links, [i]) == 0;
      }
      if Weight(links, i, j).Some? {
        WeightOk(links, n, i, j);
        var p: seq<nat> := [i, j];
        assert Joined(links, p, 0) && p[1..] == [j];
        assert Between(links, p, i, j) && Length(links, p) == m[i][j].length;
      }
    }
  }

  method Clear(spath: array2<Cell>, n: nat)
    requires spath.Length0 == n && spath.Length1 == n
    modifies spath
    ensures forall i, j :: 0 <= i < n && 0 <= j < n ==> spath[i, j] == Recorded([], i, j)
  {
    for i := 0 to n
      invariant forall a, b :: 0 <= a < i && 0 <= b < n ==> spath[a, b] == Recorded([], a, b)
    {
      for j := 0 to n
        invariant forall a, b :: 0 <= a < i && 0 <= b < n ==> spath[a, b] == Recorded([], a, b)
        invariant forall b :: 0 <= b < j ==> spath[i, b] == Recorded([], i, b)
      {
        spath[i, j] := if i == j then Cell(0, i) else Cell(INFINITY, -1);
      }
    }
  }

  method Record(spath: array2<Cell>, n: nat, links: seq<Link>)
    requires spath.Length0 == n && spath.Length1 == n && LinksOk(links, n)
    requires forall i, j :: 0 <= i < n && 0 <= j < n ==> spath[i, j] == Recorded([], i, j)
    modifies spath
    ensures forall i, j :: 0 <= i < n && 0 <= j < n ==> spath[i, j] == Recorded(links, i, j)
  {
    for k := 0 to |links|
      invariant forall i, j :: 0 <= i < n && 0 <= j < n ==> spath[i, j] == Recorded(links[..k], i, j)
    {
      ghost var before, after := links[..k], links[..k + 1];
      assert after[..|after| - 1] == before && after[|after| - 1] == links[k] && LinkOk(links[k], n);
      if links[k].from == -1 && links[k].to == -1 {
        continue;
      }
      var i, j := links[k].from, links[k].to;
      spath[i, j] := Cell(links[k].weight, j);
      spath[j, i] := Cell(links[k].weight, i);
    }
    assert links[..|links|] == links;
  }

  /** One turn of the outer loop: every cell is read and written in place, and no sum of two
    * lengths leaves a 32-bit int. */
  method Pass(spath: array2<Cell>, n: nat, k: nat)
    requires spath.Length0 == n && spath.Length1 == n && k < n && spath[k, k].length == 0
    requires forall i, j :: 0 <= i < n && 0 <= j < n ==> 0 <= spath[i, j].length <= INFINITY
    modifies spath
    ensures Relaxed(old(Rows(spath)), Rows(spath), k, n)
  {
    ghost var m := Rows(spath);
    for i := 0 to n
      invariant forall a, b :: 0 <= a < i && 0 <= b < n ==> spath[a, b] == Relax(m, k, a, b)
      invariant forall a, b :: i <= a < n && 0 <= b < n ==> spath[a, b] == m[a][b]
    {
      for j := 0 to n
        invariant forall a, b :: 0 <= a < i && 0 <= b < n ==> spath[a, b] == Relax(m, k, a, b)
        invariant forall b :: 0 <= b < j ==> spath[i, b] == Relax(m, k, i, b)
        invariant forall b :: j <= b < n ==> spath[i, b] == m[i][b]
        invariant forall a, b :: i < a < n && 0 <= b < n ==> spath[a, b] == m[a][b]
      {
        assert Relax(m, k, k, j) == m[k][j] && Relax(m, k, i, k) == m[i][k];
        assert spath[i, k].length + spath[k, j].length < 0x8000_0000;
        if spath[i, k].length + spath[k, j].length < spath[i, j].length {
          spath[i, j] := Cell(spath[i, k].length + spath[k, j].length, spath[i, k].next);
        }
      }
    }
  }

  /** Every stored length is the distance, or infinity where no walk is shorter than that; and the
    * hops are good ones. */
  method CalcShortestPath(spath: array2<Cell>, n: nat, links: seq<Link>)
    requires spath.Length0 == n && spath.Length1 == n && LinksOk(links, n)
    modifies spath
    ensures Good(Rows(spath), links, n) && forall k :: 0 <= k < n ==> Direct(Rows(spath), n, k)
    ensures forall i, j :: 0 <= i < n && 0 <= j < n ==> Shortest(Rows(spath), links, i, j)
  {
    Clear(spath, n);
    Record(spath, n, links);
    RecordedGood(Rows(spath), links, n);
    for k := 0 to n
      invariant Good(Rows(spath), links, n)
      invariant forall l :: 0 <= l < k ==> Direct(Rows(spath), n, l)
    {
      ghost var m := Rows(spath);
      assert spath[k, k] == m[k][k];
      Pass(spath, n, k);
      RelaxGood(m, Rows(spath), links, n, k);
      forall l | 0 <= l < k + 1
        ensures Direct(Rows(spath), n, l)
      {
        RelaxDirect(m, Rows(spath), n, k, l);
      }
    }
    forall i, j | 0 <= i < n && 0 <= j < n
      ensures Shortest(Rows(spath), links, i, j)
    {
      AllShortest(Rows(spath), links, n, i, j);
    }
  }
}
