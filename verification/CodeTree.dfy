/** The subtrees joined into a prefix code: which symbols each has, how deep
    they are, and how heavy it is. */
module CodeTree {
  import opened BitIO
  import opened CodeHeap

  function Fib(n: nat): (f: nat)
    ensures n > 0 ==> f > 0
  {
    if n < 2 then n else Fib(n - 1) + Fib(n - 2)
  }

  lemma {:induction false} FibGrows(a: nat, b: nat)
    requires a <= b
    ensures Fib(a) <= Fib(b)
  {
    if a < b { FibGrows(a, b - 1); }
  }

  /** From entry `p`, `k` parent links lead to `r`. */
  ghost predicate Climbs(es: seq<Ent>, n: nat, p: nat, k: nat, r: nat)
    decreases k
  {
    p < n <= |es| && if k == 0 then p == r else 0 < es[p].parent && Climbs(es, n, es[p].parent, k - 1, r)
  }

  /** The weight of the symbols below entry `e`, of the first `i` symbols. */
  function WeightOf(f: seq<nat>, root: seq<nat>, e: nat, i: nat): nat
    requires i <= |f| == |root|
  {
    if i == 0 then 0 else WeightOf(f, root, e, i - 1) + if root[i - 1] == e then f[i - 1] else 0
  }

  /** The share of the words of `max` bits that the symbols below `e` take. */
  function ShareOf(len: seq<nat>, root: seq<nat>, e: nat, max: nat, i: nat): nat
    requires i <= |len| == |root|
  {
    if i == 0 then 0
    else ShareOf(len, root, e, max, i - 1)
         + if root[i - 1] == e && len[i - 1] <= max then Pow2(max - len[i - 1]) else 0
  }

  /** Entry `e` is the root of a subtree: not yet joined, as heavy as its
      symbols, of Fibonacci weight for its depth, and complete. `least` bounds
      the weights of what was joined before. */
  ghost predicate Subtree(es: seq<Ent>, n: nat, f: seq<nat>, root: seq<nat>, len: seq<nat>, least: nat, e: nat) {
    && 0 < e < n <= |es| && |root| == |len| == |f| && es[e].parent == 0
    && es[e].freq == WeightOf(f, root, e, |f|)
    && (forall max: nat | es[e].depth <= max :: ShareOf(len, root, e, max, |f|) == Pow2(max))
    && Heavy(es[e], least) && Deepest(root, len, e, es[e].depth)
  }

  ghost predicate Heavy(e: Ent, least: nat) {
    && Fib(e.depth + 2) <= e.freq && least <= e.freq
    && (e.depth > 0 ==> Fib(e.depth + 1) <= least)
  }

  ghost predicate Deepest(root: seq<nat>, len: seq<nat>, e: nat, depth: nat)
    requires |root| == |len|
  {
    exists i :: 0 <= i < |root| && root[i] == e && len[i] == depth
  }

  /** Symbol `i` is in the subtree of its root, `len[i]` links below. */
  ghost predicate Leaf(es: seq<Ent>, n: nat, act: multiset<nat>, f: seq<nat>, root: seq<nat>, len: seq<nat>, i: nat) {
    && i < |f| == |root| == |len| && i + 1 < n <= |es| && es[i + 1].freq == f[i]
    && if f[i] == 0 then root[i] == 0
       else root[i] in act && root[i] < n && len[i] <= es[root[i]].depth && Climbs(es, n, i + 1, len[i], root[i])
  }

  ghost predicate Forest(es: seq<Ent>, n: nat, act: multiset<nat>, f: seq<nat>, root: seq<nat>, len: seq<nat>, least: nat) {
    && |root| == |len| == |f| < n <= |es| && 0 < least
    && (forall e :: e in act ==> act[e] == 1 && Subtree(es, n, f, root, len, least, e))
    && (forall i: nat | i < |f| :: Leaf(es, n, act, f, root, len, i))
  }

  /** Joining subtrees `a` and `b` under the new entry `n`. */
  function Joined(es: seq<Ent>, n: nat, a: nat, b: nat): (r: seq<Ent>)
    requires a < n < |es| && b < n
    ensures |r| == |es|
  {
    es[n := Ent(es[a].freq + es[b].freq, 1 + if es[a].depth < es[b].depth then es[b].depth else es[a].depth, 0)]
      [a := es[a].(parent := n)][b := es[b].(parent := n)]
  }

  ghost function Roots(root: seq<nat>, a: nat, b: nat, n: nat): (r: seq<nat>)
    ensures |r| == |root| && forall i | 0 <= i < |r| :: r[i] == if root[i] == a || root[i] == b then n else root[i]
  {
    seq(|root|, i requires 0 <= i < |root| => if root[i] == a || root[i] == b then n else root[i])
  }

  ghost function Lens(root: seq<nat>, len: seq<nat>, a: nat, b: nat): (r: seq<nat>)
    requires |root| == |len|
    ensures |r| == |len| && forall i | 0 <= i < |r| :: r[i] == if root[i] == a || root[i] == b then len[i] + 1 else len[i]
  {
    seq(|len|, i requires 0 <= i < |len| => if root[i] == a || root[i] == b then len[i] + 1 else len[i])
  }

  lemma {:induction false} WeightKept(f: seq<nat>, root: seq<nat>, a: nat, b: nat, n: nat, e: nat, i: nat)
    requires i <= |f| == |root| && e != a && e != b && e != n
    ensures WeightOf(f, Roots(root, a, b, n), e, i) == WeightOf(f, root, e, i)
  {
    if i > 0 { WeightKept(f, root, a, b, n, e, i - 1); }
  }

  lemma {:induction false} WeightJoined(f: seq<nat>, root: seq<nat>, a: nat, b: nat, n: nat, i: nat)
    requires i <= |f| == |root| && a != b && forall j | 0 <= j < |root| :: root[j] != n
    ensures WeightOf(f, Roots(root, a, b, n), n, i) == WeightOf(f, root, a, i) + WeightOf(f, root, b, i)
  {
    if i > 0 { WeightJoined(f, root, a, b, n, i - 1); }
  }

  lemma {:induction false} ShareKept(len: seq<nat>, root: seq<nat>, a: nat, b: nat, n: nat, e: nat, max: nat, i: nat)
    requires i <= |len| == |root| && e != a && e != b && e != n
    ensures ShareOf(Lens(root, len, a, b), Roots(root, a, b, n), e, max, i) == ShareOf(len, root, e, max, i)
  {
    if i > 0 { ShareKept(len, root, a, b, n, e, max, i - 1); }
  }

  lemma {:induction false} ShareJoined(len: seq<nat>, root: seq<nat>, a: nat, b: nat, n: nat, max: nat, i: nat)
    requires i <= |len| == |root| && a != b && 0 < max && forall j | 0 <= j < |root| :: root[j] != n
    ensures ShareOf(Lens(root, len, a, b), Roots(root, a, b, n), n, max, i)
         == ShareOf(len, root, a, max - 1, i) + ShareOf(len, root, b, max - 1, i)
  {
    if i > 0 { ShareJoined(len, root, a, b, n, max, i - 1); }
  }

  /** A path below other roots is not touched. */
  lemma {:induction false} ClimbsKept(es: seq<Ent>, n: nat, a: nat, b: nat, p: nat, k: nat, r: nat)
    requires Climbs(es, n, p, k, r) && a < n < |es| && b < n && es[a].parent == 0 == es[b].parent && r != a && r != b
    ensures Climbs(Joined(es, n, a, b), n + 1, p, k, r)
    decreases k
  {
    if k > 0 { ClimbsKept(es, n, a, b, es[p].parent, k - 1, r); }
  }

  /** A path to a joined root goes one step further. */
  lemma {:induction false} ClimbsOn(es: seq<Ent>, n: nat, a: nat, b: nat, p: nat, k: nat, r: nat)
    requires Climbs(es, n, p, k, r) && a < n < |es| && b < n && es[a].parent == 0 == es[b].parent && (r == a || r == b)
    ensures 0 < n ==> Climbs(Joined(es, n, a, b), n + 1, p, k + 1, n)
    decreases k
  {
    if k > 0 {
      ClimbsOn(es, n, a, b, es[p].parent, k - 1, r);
    } else {
      assert Climbs(Joined(es, n, a, b), n + 1, n, 0, n);
    }
  }

  /** The two least subtrees may be joined: the result is heavy enough. */
  lemma JoinedHeavy(a: Ent, b: Ent, least: nat, c: Ent)
    requires Heavy(a, least) && Heavy(b, least) && a.freq <= b.freq && 0 < least
    requires c.freq == a.freq + b.freq && c.depth == 1 + if a.depth < b.depth then b.depth else a.depth
    ensures Heavy(c, b.freq)
  {
    var d := c.depth - 1;
    assert Fib(d + 3) == Fib(d + 2) + Fib(d + 1);
    if d == 0 {
      assert Fib(1) == 1 && Fib(2) == 1;
    }
  }

  lemma KeptSubtree(es: seq<Ent>, n: nat, f: seq<nat>, root: seq<nat>, len: seq<nat>, least: nat, a: nat, b: nat, e: nat)
    requires Subtree(es, n, f, root, len, least, e) && a < n < |es| && b < n && e != a && e != b
    requires least <= es[b].freq <= es[e].freq
    ensures Subtree(Joined(es, n, a, b), n + 1, f, Roots(root, a, b, n), Lens(root, len, a, b), es[b].freq, e)
  {
    hide Fib, WeightOf, ShareOf, Pow2;
    WeightKept(f, root, a, b, n, e, |f|);
    forall max: nat | es[e].depth <= max
      ensures ShareOf(Lens(root, len, a, b), Roots(root, a, b, n), e, max, |f|) == Pow2(max)
    {
      ShareKept(len, root, a, b, n, e, max, |f|);
    }
    var i :| 0 <= i < |root| && root[i] == e && len[i] == es[e].depth;
    assert Roots(root, a, b, n)[i] == e && Lens(root, len, a, b)[i] == es[e].depth;
  }

  lemma NewSubtree(es: seq<Ent>, n: nat, f: seq<nat>, root: seq<nat>, len: seq<nat>, least: nat, a: nat, b: nat)
    requires Subtree(es, n, f, root, len, least, a) && Subtree(es, n, f, root, len, least, b) && a != b && n < |es|
    requires es[a].freq <= es[b].freq && 0 < least && forall i | 0 <= i < |root| :: root[i] < n
    ensures Subtree(Joined(es, n, a, b), n + 1, f, Roots(root, a, b, n), Lens(root, len, a, b), es[b].freq, n)
  {
    hide Fib, WeightOf, ShareOf, Heavy;
    var es', root', len' := Joined(es, n, a, b), Roots(root, a, b, n), Lens(root, len, a, b);
    WeightJoined(f, root, a, b, n, |f|);
    JoinedHeavy(es[a], es[b], least, es'[n]);
    forall max: nat | es'[n].depth <= max ensures ShareOf(len', root', n, max, |f|) == Pow2(max) {
      ShareJoined(len, root, a, b, n, max, |f|);
    }
    var top := if es[a].depth < es[b].depth then b else a;
    var i :| 0 <= i < |root| && root[i] == top && len[i] == es[top].depth;
    assert root'[i] == n && len'[i] == es'[n].depth;
  }

  lemma JoinedLeaf(es: seq<Ent>, n: nat, act: multiset<nat>, f: seq<nat>, root: seq<nat>, len: seq<nat>, a: nat, b: nat, i: nat)
    requires Leaf(es, n, act, f, root, len, i) && 0 < a < n < |es| && 0 < b < n && a != b
    requires es[a].parent == 0 == es[b].parent
    ensures Leaf(Joined(es, n, a, b), n + 1, act - multiset{a, b} + multiset{n}, f, Roots(root, a, b, n), Lens(root, len, a, b), i)
  {
    if f[i] > 0 {
      if root[i] == a || root[i] == b {
        ClimbsOn(es, n, a, b, i + 1, len[i], root[i]);
      } else {
        ClimbsKept(es, n, a, b, i + 1, len[i], root[i]);
      }
    }
  }

  /** Joining the two least subtrees keeps the forest. */
  lemma JoinForest(es: seq<Ent>, n: nat, act: multiset<nat>, f: seq<nat>, root: seq<nat>, len: seq<nat>, least: nat, a: nat, b: nat)
    requires Forest(es, n, act, f, root, len, least) && n < |es| && a in act && b in act - multiset{a}
    requires a < n && b < n && es[a].freq <= es[b].freq
    requires forall e :: e in act - multiset{a} ==> e < n && es[b].freq <= es[e].freq
    ensures Forest(Joined(es, n, a, b), n + 1, act - multiset{a, b} + multiset{n},
                   f, Roots(root, a, b, n), Lens(root, len, a, b), es[b].freq)
  {
    hide Fib, WeightOf, ShareOf, Subtree, Leaf, Climbs;
    RootsBelow(es, n, act, f, root, len, least);
    JoinBounds(es, n, f, root, len, least, a);
    JoinBounds(es, n, f, root, len, least, b);
    var es', n', act' := Joined(es, n, a, b), n + 1, act - multiset{a, b} + multiset{n};
    var root', len' := Roots(root, a, b, n), Lens(root, len, a, b);
    NewSubtree(es, n, f, root, len, least, a, b);
    ActiveBelow(es, n, act, f, root, len, least);
    forall e | e in act' && e != n
      ensures act'[e] == 1 && Subtree(es', n', f, root', len', es[b].freq, e)
    {
      KeptSubtree(es, n, f, root, len, least, a, b, e);
    }
    forall i: nat | i < |f| ensures Leaf(es', n', act', f, root', len', i) {
      JoinedLeaf(es, n, act, f, root, len, a, b, i);
    }
  }

  lemma JoinBounds(es: seq<Ent>, n: nat, f: seq<nat>, root: seq<nat>, len: seq<nat>, least: nat, a: nat)
    requires Subtree(es, n, f, root, len, least, a)
    ensures 0 < a < n <= |es| && es[a].parent == 0 && least <= es[a].freq
  {
  }

  lemma RootsBelow(es: seq<Ent>, n: nat, act: multiset<nat>, f: seq<nat>, root: seq<nat>, len: seq<nat>, least: nat)
    requires Forest(es, n, act, f, root, len, least)
    ensures forall i | 0 <= i < |root| :: root[i] < n
  {
    hide Subtree, Climbs;
    forall i: nat | i < |root| ensures root[i] < n {
      assert Leaf(es, n, act, f, root, len, i);
    }
  }

  lemma ActiveBelow(es: seq<Ent>, n: nat, act: multiset<nat>, f: seq<nat>, root: seq<nat>, len: seq<nat>, least: nat)
    requires Forest(es, n, act, f, root, len, least)
    ensures forall e :: e in act ==> 0 < e < n
  {
    forall e | e in act ensures 0 < e < n {
      assert Subtree(es, n, f, root, len, least, e);
    }
  }
}
