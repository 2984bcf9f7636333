/**
  contests/contest4/1.cpp: the cheapest way to turn `a` into `b` when `+1`
  costs `x` and `^1` costs `y`, staying within the states `0..199`. The
  `cost` array is relaxed from a FIFO queue until no entry improves;
  `LLONG_MAX` marks a state not reached.
 */
module CostRelax {
  import opened Bits
  import opened Sums

  /** The number of states. */
  const N := 200

  /** `LLONG_MAX`, the mark of an unreached state. */
  const Inf := 0x7FFF_FFFF_FFFF_FFFF

  datatype Move = Inc | Flip

  /** The state a move leads to from `u`: `u + 1` or `u ^ 1`. */
  function Step(u: nat, m: Move): nat
  {
    match m
    case Inc => u + 1
    case Flip => Xor(u, 1)
  }

  /** `u ^ 1` flips the lowest bit. */
  lemma XorOne(u: nat)
    ensures Xor(u, 1) == if u % 2 == 0 then u + 1 else u - 1
  {
    XorHalves(u, 1);
    XorZero(u / 2);
    assert Xor(u, 1) == Xor(u, 1) % 2 + 2 * (Xor(u, 1) / 2);
  }

  function Weight(m: Move, x: int, y: int): int
  {
    match m
    case Inc => x
    case Flip => y
  }

  /** The state reached from `u` by the moves `p`. */
  function End(u: nat, p: seq<Move>): nat
  {
    if p == [] then u else Step(End(u, p[..|p| - 1]), p[|p| - 1])
  }

  /** What the moves `p` cost in total. */
  function PathCost(p: seq<Move>, x: int, y: int): int
  {
    if p == [] then 0 else PathCost(p[..|p| - 1], x, y) + Weight(p[|p| - 1], x, y)
  }

  /** The moves `p` lead from `u` to `v` through states below `N` only. */
  predicate Path(u: nat, p: seq<Move>, v: nat)
  {
    u < N && v < N && End(u, p) == v && forall i :: 0 <= i <= |p| ==> End(u, p[..i]) < N
  }

  /** Both moves out of `u` are already relaxed. */
  predicate Relaxed(cost: seq<int>, u: nat, x: int, y: int)
    requires |cost| == N && u < N
  {
    (Step(u, Inc) < N ==> cost[Step(u, Inc)] <= cost[u] + x) &&
    (Step(u, Flip) < N ==> cost[Step(u, Flip)] <= cost[u] + y)
  }

  /** Extending a path by one move that stays below `N`. */
  lemma PathSnoc(u: nat, p: seq<Move>, v: nat, m: Move, x: int, y: int)
    requires Path(u, p, v) && Step(v, m) < N
    ensures Path(u, p + [m], Step(v, m))
    ensures PathCost(p + [m], x, y) == PathCost(p, x, y) + Weight(m, x, y)
  {
    var q := p + [m];
    assert q[..|q| - 1] == p;
    forall i | 0 <= i <= |q| ensures End(u, q[..i]) < N {
      if i <= |p| {
        assert q[..i] == p[..i];
      } else {
        assert q[..i] == q;
      }
    }
  }

  lemma {:induction false} PathCostNonNegative(p: seq<Move>, x: int, y: int)
    requires x >= 0 && y >= 0
    ensures PathCost(p, x, y) >= 0
  {
    if p != [] {
      PathCostNonNegative(p[..|p| - 1], x, y);
    }
  }

  /**
    Once every reached state is relaxed and `cost[a] == 0`, no path from
    `a` is cheaper than the cost recorded for its end.
   */
  lemma {:induction false} RelaxedIsLowerBound(cost: seq<int>, a: nat, p: seq<Move>, v: nat, x: int, y: int)
    requires |cost| == N && a < N && cost[a] == 0 && x >= 0 && y >= 0
    requires forall u :: 0 <= u < N ==> cost[u] <= Inf
    requires forall u :: 0 <= u < N && cost[u] < Inf ==> Relaxed(cost, u, x, y)
    requires Path(a, p, v)
    ensures cost[v] <= PathCost(p, x, y)
    decreases |p|
  {
    if p != [] {
      var init := p[..|p| - 1];
      var w := End(a, init);
      assert Path(a, init, w) by {
        forall i | 0 <= i <= |init| ensures End(a, init[..i]) < N {
          assert init[..i] == p[..i];
        }
      }
      assert End(a, p) == Step(w, p[|p| - 1]) == v;
      RelaxedIsLowerBound(cost, a, init, w, x, y);
      PathCostNonNegative(init, x, y);
      if cost[w] == Inf {
        assert cost[v] <= Inf;
      }
    }
  }

  /** The states reachable from `a`: everything from `a` up, and `a - 1` when `a` is odd. */
  predicate Reachable(a: nat, v: nat)
  {
    a <= v || (a % 2 == 1 && v == a - 1)
  }

  /** Moves never lead outside the reachable states. */
  lemma {:induction false} PathStaysReachable(a: nat, p: seq<Move>)
    ensures Reachable(a, End(a, p))
  {
    if p != [] {
      PathStaysReachable(a, p[..|p| - 1]);
      XorOne(End(a, p[..|p| - 1]));
    }
  }

  /** `k` increments from `a`. */
  function Incs(k: nat): (p: seq<Move>)
    ensures |p| == k && forall i :: 0 <= i < k ==> p[i] == Inc
  {
    seq(k, i => Inc)
  }

  lemma {:induction false} IncsPath(a: nat, k: nat, x: int, y: int)
    requires a + k < N
    ensures Path(a, Incs(k), a + k) && PathCost(Incs(k), x, y) == k * x
  {
    if k > 0 {
      IncsPath(a, k - 1, x, y);
      assert Incs(k) == Incs(k - 1) + [Inc];
      PathSnoc(a, Incs(k - 1), a + k - 1, Inc, x, y);
    }
  }

  lemma ScaledBelow(k: nat, x: int, y: int)
    requires k <= N && x >= 0 && y >= 0
    ensures k * x <= N * (x + y)
  {
    assert k * x <= N * x;
  }

  /** Every reachable state below `N` has a path of cost at most `N * (x + y)`. */
  lemma CheapPath(a: nat, v: nat, x: int, y: int)
    requires a < N && v < N && Reachable(a, v) && x >= 0 && y >= 0
    ensures exists p :: Path(a, p, v) && PathCost(p, x, y) <= N * (x + y)
  {
    if a <= v {
      IncsPath(a, v - a, x, y);
      ScaledBelow(v - a, x, y);
      assert Path(a, Incs(v - a), v);
    } else {
      FlipPath(a, x, y);
    }
  }

  /** From an odd `a`, one `^1` reaches `a - 1`. */
  lemma FlipPath(a: nat, x: int, y: int)
    requires a < N && a % 2 == 1 && x >= 0 && y >= 0
    ensures Path(a, [Flip], a - 1) && PathCost([Flip], x, y) == y
  {
    XorOne(a);
    assert Path(a, [], a) by {
      forall i | 0 <= i <= 0 ensures End(a, [][..i]) < N { }
    }
    PathSnoc(a, [], a, Flip, x, y);
    assert [] + [Flip] == [Flip];
  }

  lemma SumUpdate(s: seq<int>, i: nat, v: int)
    requires i < |s|
    ensures Sum(s[i := v]) == Sum(s) - s[i] + v
  {
    assert Without(s[i := v], i) == Without(s, i);
    SumRemove(s, i);
    SumRemove(s[i := v], i);
  }

  /** The loop's invariant: costs in range, `a` at 0, queued states reached, witnesses, relaxed states. */
  ghost predicate Invariant(cost: seq<int>, q: seq<int>, paths: seq<seq<Move>>, a: nat, x: int, y: int)
  {
    |cost| == N && |paths| == N && a < N && cost[a] == 0 &&
    (forall v :: 0 <= v < N ==> 0 <= cost[v] <= Inf) &&
    (forall i :: 0 <= i < |q| ==> 0 <= q[i] < N && cost[q[i]] < Inf) &&
    (forall v :: 0 <= v < N && cost[v] < Inf ==>
      Path(a, paths[v], v) && PathCost(paths[v], x, y) == cost[v]) &&
    (forall u :: 0 <= u < N && cost[u] < Inf && u !in q ==> Relaxed(cost, u, x, y))
  }

  /**
    Lines 31-34 and 37-41: one relaxation along the move `m` from `cur`.
    The target's cost drops to `cost[cur] + w` exactly when that is lower
    and the target is below `N`; no other entry changes.
   */
  method RelaxMove(cost: array<int>, cur: nat, m: Move, w: int) returns (pushed: bool, next: nat)
    requires cost.Length == N && cur < N && w >= 0
    requires forall v :: 0 <= v < N ==> 0 <= cost[v]
    modifies cost
    ensures next == Step(cur, m) && next != cur
    ensures pushed <==> next < N && old(cost[next]) > old(cost[cur]) + w
    ensures pushed ==> cost[..] == old(cost[..])[next := old(cost[cur]) + w]
    ensures !pushed ==> cost[..] == old(cost[..])
    ensures forall v :: 0 <= v < N ==> 0 <= cost[v] <= old(cost[v])
  {
    XorOne(cur);
    next := Step(cur, m);
    pushed := false;
    if next < N && cost[next] > cost[cur] + w {
      cost[next] := cost[cur] + w;
      pushed := true;
    }
  }

  /** The loop body keeps the invariant after relaxing from `cur`, and the costs only go down. */
  lemma RelaxKeeps(c0: seq<int>, c1: seq<int>, q: seq<int>, paths: seq<seq<Move>>,
                   a: nat, cur: nat, m: Move, next: nat, x: int, y: int)
    requires Invariant(c0, q, paths, a, x, y) && x >= 0 && y >= 0
    requires cur < N && c0[cur] < Inf && next == Step(cur, m) && next < N
    requires c0[next] > c0[cur] + Weight(m, x, y)
    requires c1 == c0[next := c0[cur] + Weight(m, x, y)]
    ensures Invariant(c1, q + [next], paths[next := paths[cur] + [m]], a, x, y)
    ensures Sum(c1) < Sum(c0)
  {
    var q1 := q + [next];
    var paths1 := paths[next := paths[cur] + [m]];
    assert next != a;
    PathSnoc(a, paths[cur], cur, m, x, y);
    SumUpdate(c0, next, c1[next]);
    forall v | 0 <= v < N && c1[v] < Inf
      ensures Path(a, paths1[v], v) && PathCost(paths1[v], x, y) == c1[v]
    {
      if v != next {
        assert paths1[v] == paths[v] && c1[v] == c0[v];
      }
    }
    forall u | 0 <= u < N && c1[u] < Inf && u !in q1 ensures Relaxed(c1, u, x, y) {
      assert u != next && u !in q;
      LowerKeepsRelaxed(c0, c1, u, next, x, y);
    }
    forall i | 0 <= i < |q1| ensures 0 <= q1[i] < N && c1[q1[i]] < Inf {
      if i < |q| {
        assert q1[i] == q[i];
      }
    }
  }

  /** Lowering the cost of another state keeps `u` relaxed. */
  lemma LowerKeepsRelaxed(c0: seq<int>, c1: seq<int>, u: nat, next: nat, x: int, y: int)
    requires |c0| == N == |c1| && u < N && next < N && u != next && Relaxed(c0, u, x, y)
    requires c1 == c0[next := c1[next]] && c1[next] <= c0[next]
    ensures Relaxed(c1, u, x, y)
  {
  }

  /**
    Lines 21-42: the relaxation from `a`. When the queue empties, `cost[a]`
    is 0, every entry lies in `0..Inf`, every finite entry is the cost of
    a path from `a`, and every reached state has both of its moves relaxed.
   */
  method Relax(a: nat, x: int, y: int) returns (cost: array<int>, ghost paths: seq<seq<Move>>)
    requires a < N && x >= 0 && y >= 0
    ensures cost.Length == N && |paths| == N && cost[a] == 0
    ensures forall v :: 0 <= v < N ==> 0 <= cost[v] <= Inf
    ensures forall v :: 0 <= v < N && cost[v] < Inf ==>
      Path(a, paths[v], v) && PathCost(paths[v], x, y) == cost[v]
    ensures forall u :: 0 <= u < N && cost[u] < Inf ==> Relaxed(cost[..], u, x, y)
  {
    cost := new int[N](_ => Inf);
    cost[a] := 0;
    paths := seq(N, _ => []);
    assert Path(a, [], a) by {
      forall i | 0 <= i <= 0 ensures End(a, [][..i]) < N { }
    }
    var q := [a];
    while q != []
      invariant cost.Length == N
      invariant Invariant(cost[..], q, paths, a, x, y)
      decreases Sum(cost[..]), |q|
    {
      var cur := q[0];
      assert q == [cur] + q[1..];
      SumNonNegative(cost[..]);
      q, paths := Visit(cost, cur, q[1..], paths, a, x, y);
      SumNonNegative(cost[..]);
    }
  }

  /**
    Lines 28-41: pop `cur` and relax both of its moves. Either some cost
    dropped, or nothing changed and `cur` has simply left the queue.
   */
  method Visit(cost: array<int>, cur: nat, q: seq<int>, ghost paths: seq<seq<Move>>, ghost a: nat, x: int, y: int)
    returns (q1: seq<int>, ghost paths1: seq<seq<Move>>)
    requires cost.Length == N && cur < N && x >= 0 && y >= 0
    requires Invariant(cost[..], [cur] + q, paths, a, x, y)
    modifies cost
    ensures Invariant(cost[..], q1, paths1, a, x, y)
    ensures Sum(cost[..]) < old(Sum(cost[..])) || (cost[..] == old(cost[..]) && q1 == q)
  {
    ghost var c0 := cost[..];
    var q0;
    ghost var paths0;
    q0, paths0 := TryMove(cost, cur, Inc, x, q, paths, a, x, y);
    ghost var c1 := cost[..];
    q1, paths1 := TryMove(cost, cur, Flip, y, q0, paths0, a, x, y);
    RelaxedCur(c0, c1, cost[..], cur, x, y);
    DropCur(cost[..], q1, paths1, a, cur, x, y);
  }

  /** Lines 31-34 or 37-41 with the queue and the witnesses: relax one move from `cur`. */
  method TryMove(cost: array<int>, cur: nat, m: Move, w: int, q: seq<int>, ghost paths: seq<seq<Move>>,
                 ghost a: nat, x: int, y: int)
    returns (q1: seq<int>, ghost paths1: seq<seq<Move>>)
    requires cost.Length == N && cur < N && x >= 0 && y >= 0 && w == Weight(m, x, y)
    requires Invariant(cost[..], [cur] + q, paths, a, x, y)
    modifies cost
    ensures Invariant(cost[..], [cur] + q1, paths1, a, x, y)
    ensures cost[cur] == old(cost[cur])
    ensures forall v :: 0 <= v < N ==> cost[v] <= old(cost[v])
    ensures Step(cur, m) < N ==> cost[Step(cur, m)] <= cost[cur] + w
    ensures Sum(cost[..]) < old(Sum(cost[..])) || (cost[..] == old(cost[..]) && q1 == q)
  {
    ghost var c0 := cost[..];
    q1, paths1 := q, paths;
    var pushed, next := RelaxMove(cost, cur, m, w);
    MoveKeeps(c0, cost[..], q, paths, a, cur, m, next, x, y, pushed);
    if pushed {
      paths1 := paths[next := paths[cur] + [m]];
      q1 := q + [next];
    }
  }

  /** What one relaxation from `cur` does to the costs, stated on their values. */
  lemma MoveKeeps(c0: seq<int>, c1: seq<int>, q: seq<int>, paths: seq<seq<Move>>, a: nat,
                  cur: nat, m: Move, next: nat, x: int, y: int, pushed: bool)
    requires Invariant(c0, [cur] + q, paths, a, x, y) && x >= 0 && y >= 0 && cur < N
    requires next == Step(cur, m) && next != cur
    requires pushed <==> next < N && c0[next] > c0[cur] + Weight(m, x, y)
    requires pushed ==> c1 == c0[next := c0[cur] + Weight(m, x, y)]
    requires !pushed ==> c1 == c0
    ensures pushed ==> Invariant(c1, [cur] + (q + [next]), paths[next := paths[cur] + [m]], a, x, y)
    ensures pushed ==> Sum(c1) < Sum(c0)
    ensures |c1| == N && c1[cur] == c0[cur]
    ensures next < N ==> c1[next] <= c1[cur] + Weight(m, x, y)
  {
    if pushed {
      assert ([cur] + q)[0] == cur;
      RelaxKeeps(c0, c1, [cur] + q, paths, a, cur, m, next, x, y);
      assert [cur] + q + [next] == [cur] + (q + [next]);
    }
  }

  /** After both moves from `cur` are tried, `cur` is relaxed. */
  lemma RelaxedCur(c0: seq<int>, c1: seq<int>, c2: seq<int>, cur: nat, x: int, y: int)
    requires |c0| == N && |c1| == N && |c2| == N && cur < N
    requires c1[cur] == c0[cur] && c2[cur] == c1[cur]
    requires Step(cur, Inc) < N ==> c1[Step(cur, Inc)] <= c0[cur] + x
    requires forall v :: 0 <= v < N ==> c2[v] <= c1[v]
    requires Step(cur, Flip) < N ==> c2[Step(cur, Flip)] <= c1[cur] + y
    ensures Relaxed(c2, cur, x, y)
  {
  }

  /** Once `cur` is relaxed it can leave the pending states. */
  lemma DropCur(cost: seq<int>, q: seq<int>, paths: seq<seq<Move>>, a: nat, cur: nat, x: int, y: int)
    requires Invariant(cost, [cur] + q, paths, a, x, y) && cur < N && Relaxed(cost, cur, x, y)
    ensures Invariant(cost, q, paths, a, x, y)
  {
    forall i | 0 <= i < |q| ensures 0 <= q[i] < N && cost[q[i]] < Inf {
      assert q[i] == ([cur] + q)[i + 1];
    }
    forall u | 0 <= u < N && cost[u] < Inf && u !in q ensures Relaxed(cost, u, x, y) {
      if u != cur {
        assert u !in [cur] + q;
      }
    }
  }

  /** No path from `a` is cheaper than nothing; the empty path is the cheapest way to stay. */
  lemma StayCheapest(a: nat, x: int, y: int)
    requires a < N && x >= 0 && y >= 0
    ensures Path(a, [], a) && PathCost([], x, y) == 0
    ensures forall p :: Path(a, p, a) ==> 0 <= PathCost(p, x, y)
  {
    assert Path(a, [], a) by {
      forall i | 0 <= i <= 0 ensures End(a, [][..i]) < N { }
    }
    forall p | Path(a, p, a) ensures 0 <= PathCost(p, x, y) {
      PathCostNonNegative(p, x, y);
    }
  }

  /**
    What the relaxed array says about `b`: it is unreached exactly when no
    path leads there, and otherwise its entry is the cost of a path and no
    path is cheaper.
   */
  lemma Conclude(cost: seq<int>, paths: seq<seq<Move>>, a: nat, b: nat, x: int, y: int)
    requires |cost| == N && |paths| == N && a < N && b < N && cost[a] == 0
    requires x >= 0 && y >= 0 && N * (x + y) < Inf
    requires forall v :: 0 <= v < N ==> 0 <= cost[v] <= Inf
    requires forall v :: 0 <= v < N && cost[v] < Inf ==>
      Path(a, paths[v], v) && PathCost(paths[v], x, y) == cost[v]
    requires forall u :: 0 <= u < N && cost[u] < Inf ==> Relaxed(cost, u, x, y)
    ensures cost[b] == Inf <==> !Reachable(a, b)
    ensures cost[b] == Inf <==> forall p :: !Path(a, p, b)
    ensures forall p :: Path(a, p, b) ==> cost[b] <= PathCost(p, x, y)
  {
    forall p | Path(a, p, b) ensures cost[b] <= PathCost(p, x, y) {
      RelaxedIsLowerBound(cost, a, p, b, x, y);
    }
    if Reachable(a, b) {
      CheapPath(a, b, x, y);
    } else {
      forall p | Path(a, p, b) ensures false {
        PathStaysReachable(a, p);
      }
      if cost[b] < Inf {
        PathStaysReachable(a, paths[b]);
      }
    }
  }

  /**
    Lines 15-47: 0 when `a == b`; otherwise the relaxed cost of `b`, or -1
    when `b` is unreached. -1 exactly when no path leads from `a` to `b`
    (when `b` lies below `a`, other than `a - 1` for an odd `a`); otherwise
    the answer is the cost of a path and no path costs less.
   */
  method MinCost(a: nat, b: nat, x: int, y: int) returns (ans: int)
    requires a < N && b < N && x >= 0 && y >= 0 && N * (x + y) < Inf
    ensures a == b ==> ans == 0
    ensures ans == -1 <==> !Reachable(a, b)
    ensures ans == -1 <==> forall p :: !Path(a, p, b)
    ensures ans != -1 ==> ans >= 0 && exists p :: Path(a, p, b) && PathCost(p, x, y) == ans
    ensures ans != -1 ==> forall p :: Path(a, p, b) ==> ans <= PathCost(p, x, y)
  {
    if a == b {
      StayCheapest(a, x, y);
      return 0;
    }
    var cost, paths := Relax(a, x, y);
    Conclude(cost[..], paths, a, b, x, y);
    if cost[b] == Inf {
      ans := -1;
    } else {
      ans := cost[b];
      assert Path(a, paths[b], b) && PathCost(paths[b], x, y) == ans;
    }
  }
}
