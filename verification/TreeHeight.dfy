/** How high the tree over given frequencies grows: a function of the frequencies
    alone, however the heap breaks ties. */
module TreeHeight {
  import opened CodeHeap
  import opened CodeTree

  /** What the heap compares. */
  datatype Key = Key(freq: nat, depth: nat)

  predicate Leq(a: Key, b: Key) {
    a.freq < b.freq || (a.freq == b.freq && a.depth <= b.depth)
  }

  function Pair(a: Key, b: Key): Key {
    Key(a.freq + b.freq, 1 + if a.depth < b.depth then b.depth else a.depth)
  }

  ghost predicate IsLeast(m: multiset<Key>, a: Key) {
    a in m && forall x :: x in m ==> Leq(a, x)
  }

  lemma {:induction false} LeastExists(m: multiset<Key>)
    requires |m| > 0
    ensures exists a :: IsLeast(m, a)
    decreases |m|
  {
    var x :| x in m;
    var t := m - multiset{x};
    if |t| == 0 {
      assert forall y :: y in m ==> y == x by { assert m == multiset{x}; }
      assert IsLeast(m, x);
    } else {
      LeastExists(t);
      var a :| IsLeast(t, a);
      assert forall y :: y in m ==> y == x || y in t;
      assert IsLeast(m, if Leq(a, x) then a else x);
    }
  }

  ghost function Least(m: multiset<Key>): (a: Key)
    requires |m| > 0
    ensures IsLeast(m, a)
  {
    LeastExists(m);
    var a :| IsLeast(m, a);
    a
  }

  /** Joining the two least until one is left. */
  ghost function Height(m: multiset<Key>): nat
    decreases |m|
  {
    if |m| == 0 then 0
    else if |m| == 1 then Least(m).depth
    else
      var a := Least(m);
      var t := m - multiset{a};
      var b := Least(t);
      Height(t - multiset{b} + multiset{Pair(a, b)})
  }

  /** What joining the two least costs until one is left: the weight of every pair
      that is joined. */
  ghost function Joins(m: multiset<Key>): nat
    decreases |m|
  {
    if |m| <= 1 then 0
    else
      var a := Least(m);
      var t := m - multiset{a};
      var b := Least(t);
      a.freq + b.freq + Joins(t - multiset{b} + multiset{Pair(a, b)})
  }

  lemma JoinsNone(m: multiset<Key>)
    requires |m| <= 1
    ensures Joins(m) == 0
  {
  }

  /** Any least two will do. */
  lemma HeightStep(m: multiset<Key>, a: Key, b: Key)
    requires IsLeast(m, a) && IsLeast(m - multiset{a}, b)
    ensures |m| > 1 && Height(m) == Height(m - multiset{a} - multiset{b} + multiset{Pair(a, b)})
    ensures Joins(m) == a.freq + b.freq + Joins(m - multiset{a} - multiset{b} + multiset{Pair(a, b)})
  {
    assert Least(m) == a;
    assert Least(m - multiset{a}) == b;
  }

  lemma HeightLast(m: multiset<Key>)
    requires |m| == 1
    ensures Height(m) == Least(m).depth
  {
  }

  lemma HeightOne(a: Key)
    ensures Height(multiset{a}) == a.depth
  {
    HeightLast(multiset{a});
    assert Least(multiset{a}) in multiset{a};
  }

  // The keys of the entries in the heap.

  function KeyAt(es: seq<Ent>, e: nat): Key
    requires e < |es|
  {
    Key(es[e].freq, es[e].depth)
  }

  ghost predicate Entries(es: seq<Ent>, s: seq<nat>) {
    forall i | 0 <= i < |s| :: s[i] < |es|
  }

  function Keys(es: seq<Ent>, s: seq<nat>): multiset<Key>
    requires Entries(es, s)
  {
    if s == [] then multiset{} else multiset{KeyAt(es, s[0])} + Keys(es, s[1..])
  }

  lemma {:induction false} KeysConcat(es: seq<Ent>, p: seq<nat>, q: seq<nat>)
    requires Entries(es, p) && Entries(es, q)
    ensures Entries(es, p + q) && Keys(es, p + q) == Keys(es, p) + Keys(es, q)
  {
    hide Keys;
    if p == [] {
      assert p + q == q;
      NoKeys(es);
    } else {
      var e, t := p[0], p[1..];
      assert p == [e] + t && p + q == [e] + (t + q);
      KeysConcat(es, t, q);
      KeysCons(es, e, t);
      KeysCons(es, e, t + q);
      Regroup(KeyAt(es, e), Keys(es, t), Keys(es, q));
    }
  }

  lemma Regroup(k: Key, a: multiset<Key>, b: multiset<Key>)
    ensures multiset{k} + (a + b) == (multiset{k} + a) + b
  {
  }

  lemma NoKeys(es: seq<Ent>)
    ensures Keys(es, []) == multiset{}
  {
  }

  lemma KeysCons(es: seq<Ent>, e: nat, t: seq<nat>)
    requires e < |es| && Entries(es, t)
    ensures Entries(es, [e] + t) && Keys(es, [e] + t) == multiset{KeyAt(es, e)} + Keys(es, t)
  {
    assert ([e] + t)[1..] == t;
  }

  lemma KeysOne(es: seq<Ent>, e: nat)
    requires e < |es|
    ensures Keys(es, [e]) == multiset{KeyAt(es, e)}
  {
    KeysCons(es, e, []);
    assert [e] + [] == [e];
  }

  lemma Between(k: Key, a: multiset<Key>, b: multiset<Key>)
    ensures a + (multiset{k} + b) == multiset{k} + (a + b)
  {
  }

  /** A sequence without the element at `i`. */
  function Without(s: seq<nat>, i: nat): seq<nat>
    requires i < |s|
  {
    s[..i] + s[i + 1..]
  }

  lemma WithoutIs(s: seq<nat>, i: nat)
    requires i < |s|
    ensures |Without(s, i)| == |s| - 1 && multiset(s) == multiset{s[i]} + multiset(Without(s, i))
    ensures s == s[..i] + ([s[i]] + s[i + 1..])
  {
    assert s == s[..i] + ([s[i]] + s[i + 1..]);
  }

  lemma KeysWithout(es: seq<Ent>, s: seq<nat>, i: nat)
    requires Entries(es, s) && i < |s|
    ensures Entries(es, Without(s, i)) && Keys(es, s) == multiset{KeyAt(es, s[i])} + Keys(es, Without(s, i))
  {
    hide Keys;
    var p, q := s[..i], s[i + 1..];
    WithoutIs(s, i);
    KeysConcat(es, p, [s[i]] + q);
    KeysConcat(es, p, q);
    KeysCons(es, s[i], q);
    Between(KeyAt(es, s[i]), Keys(es, p), Keys(es, q));
  }

  lemma PlaceOf(s: seq<nat>, x: nat) returns (i: nat)
    requires x in multiset(s)
    ensures i < |s| && s[i] == x
  {
    assert x in s;
    i :| i < |s| && s[i] == x;
  }

  lemma SameMultiset(s: seq<nat>, t: seq<nat>)
    requires multiset(s) == multiset(t)
    ensures |s| == |t| && forall i | 0 <= i < |t| :: t[i] in s
  {
    assert |multiset(s)| == |s| && |multiset(t)| == |t|;
    forall i | 0 <= i < |t| ensures t[i] in s {
      assert t[i] in multiset(t);
    }
  }

  lemma Cancel(x: nat, a: multiset<nat>, b: multiset<nat>)
    requires multiset{x} + a == multiset{x} + b
    ensures a == b
  {
    assert (multiset{x} + a) - multiset{x} == a;
    assert (multiset{x} + b) - multiset{x} == b;
  }

  /** The order does not matter. */
  lemma {:induction false} KeysSame(es: seq<Ent>, s: seq<nat>, t: seq<nat>)
    requires Entries(es, s) && multiset(s) == multiset(t)
    ensures Entries(es, t) && Keys(es, s) == Keys(es, t)
    decreases |s|
  {
    hide Keys, Without;
    SameMultiset(s, t);
    if s == [] {
      assert t == [];
    } else {
      var x := s[0];
      assert x in multiset(s);
      var i := PlaceOf(t, x);
      KeysWithout(es, t, i);
      WithoutIs(t, i);
      KeysWithout(es, s, 0);
      WithoutIs(s, 0);
      Cancel(x, multiset(Without(s, 0)), multiset(Without(t, i)));
      KeysSame(es, Without(s, 0), Without(t, i));
    }
  }

  /** Only frequencies and depths count. */
  lemma {:induction false} KeysFrame(es: seq<Ent>, es': seq<Ent>, s: seq<nat>)
    requires Entries(es, s) && Entries(es', s)
    requires forall i | 0 <= i < |s| :: KeyAt(es', s[i]) == KeyAt(es, s[i])
    ensures Keys(es', s) == Keys(es, s)
  {
    if s != [] { KeysFrame(es, es', s[1..]); }
  }

  /** A heap with `a` and `b` and what else is in it. */
  lemma Apart(s: seq<nat>, a: nat, b: nat) returns (u: seq<nat>)
    requires a in multiset(s) && b in multiset(s) - multiset{a}
    ensures multiset(s) == multiset{a} + (multiset{b} + multiset(u)) && multiset(s) == multiset([a] + ([b] + u))
    ensures multiset(s) - multiset{a} == multiset([b] + u)
  {
    hide Without;
    var i := PlaceOf(s, a);
    WithoutIs(s, i);
    var t := Without(s, i);
    assert multiset(s) - multiset{a} == multiset(t);
    var j := PlaceOf(t, b);
    WithoutIs(t, j);
    u := Without(t, j);
  }

  /** Two entries joined. */
  lemma KeysJoined(es: seq<Ent>, n: nat, a: nat, b: nat, u: seq<nat>)
    requires a < n < |es| && b < n && forall i | 0 <= i < |u| :: u[i] < n
    ensures Entries(es, u) && Entries(Joined(es, n, a, b), [n] + u)
    ensures Keys(Joined(es, n, a, b), [n] + u) == multiset{Pair(KeyAt(es, a), KeyAt(es, b))} + Keys(es, u)
  {
    hide Keys;
    var es' := Joined(es, n, a, b);
    assert KeyAt(es', n) == Pair(KeyAt(es, a), KeyAt(es, b));
    assert forall e | 0 <= e < n :: KeyAt(es', e) == KeyAt(es, e);
    KeysFrame(es, es', u);
    KeysCons(es', n, u);
  }

  lemma {:induction false} KeysHas(es: seq<Ent>, s: seq<nat>, k: Key)
    requires Entries(es, s) && k in Keys(es, s)
    ensures exists e :: e in multiset(s) && e < |es| && KeyAt(es, e) == k
  {
    if k == KeyAt(es, s[0]) {
      assert s[0] in multiset(s);
    } else {
      KeysHas(es, s[1..], k);
      var e :| e in multiset(s[1..]) && e < |es| && KeyAt(es, e) == k;
      assert s == [s[0]] + s[1..];
      assert e in multiset(s);
    }
  }

  /** An entry than which none in the heap is less has a least key. */
  lemma LeastKey(es: seq<Ent>, s: seq<nat>, a: nat)
    requires Entries(es, s) && a in multiset(s)
    requires forall x :: x in multiset(s) ==> x < |es| && !Less(es[x], es[a])
    ensures IsLeast(Keys(es, s), KeyAt(es, a))
  {
    hide Keys, Without;
    var i := PlaceOf(s, a);
    KeysWithout(es, s, i);
    forall k | k in Keys(es, s) ensures Leq(KeyAt(es, a), k) {
      KeysHas(es, s, k);
    }
  }

  lemma KeysTwo(es: seq<Ent>, a: nat, b: nat, u: seq<nat>)
    requires a < |es| && b < |es| && Entries(es, u)
    ensures Entries(es, [b] + u) && Entries(es, [a] + ([b] + u))
    ensures Keys(es, [a] + ([b] + u)) - multiset{KeyAt(es, a)} == Keys(es, [b] + u)
    ensures Keys(es, [a] + ([b] + u)) - multiset{KeyAt(es, a)} - multiset{KeyAt(es, b)} == Keys(es, u)
  {
    hide Keys;
    KeysCons(es, b, u);
    KeysCons(es, a, [b] + u);
    TwoTaken(KeyAt(es, a), KeyAt(es, b), Keys(es, u));
  }

  lemma TwoTaken(x: Key, y: Key, m: multiset<Key>)
    ensures (multiset{x} + (multiset{y} + m)) - multiset{x} == multiset{y} + m
    ensures (multiset{x} + (multiset{y} + m)) - multiset{x} - multiset{y} == m
  {
  }

  /** One round of joining, on a heap listed with the two in front. */
  lemma JoinFront(es: seq<Ent>, n: nat, a: nat, b: nat, u: seq<nat>)
    requires a < n < |es| && b < n && (forall i | 0 <= i < |u| :: u[i] < n)
    requires !Less(es[b], es[a])
    requires forall x :: x in multiset([b] + u) ==> x < |es| && !Less(es[x], es[b])
    ensures Entries(es, [a] + ([b] + u)) && Entries(Joined(es, n, a, b), [n] + u)
    ensures Height(Keys(Joined(es, n, a, b), [n] + u)) == Height(Keys(es, [a] + ([b] + u)))
    ensures Joins(Keys(es, [a] + ([b] + u))) == es[a].freq + es[b].freq + Joins(Keys(Joined(es, n, a, b), [n] + u))
  {
    hide Height, Joins, Joined, Keys, Less, Leq, IsLeast;
    KeysTwo(es, a, b, u);
    NoneLess(es, a, b, u);
    LeastKey(es, [a] + ([b] + u), a);
    LeastKey(es, [b] + u, b);
    HeightStep(Keys(es, [a] + ([b] + u)), KeyAt(es, a), KeyAt(es, b));
    KeysJoined(es, n, a, b, u);
    Swapped(Keys(es, u), Pair(KeyAt(es, a), KeyAt(es, b)));
  }

  /** One round of joining does not change the height to come, and costs the weight of
      the pair. */
  lemma JoinHeight(es: seq<Ent>, n: nat, a: nat, b: nat, s: seq<nat>, s': seq<nat>)
    requires a < n < |es| && b < n && (forall x :: x in multiset(s) ==> x < n)
    requires a in multiset(s) && b in multiset(s) - multiset{a}
    requires forall x :: x in multiset(s) - multiset{a} ==> x < |es| && !Less(es[x], es[b])
    requires !Less(es[b], es[a])
    requires multiset(s') == multiset(s) - multiset{a} - multiset{b} + multiset{n}
    ensures Entries(es, s) && Entries(Joined(es, n, a, b), s')
    ensures Height(Keys(Joined(es, n, a, b), s')) == Height(Keys(es, s))
    ensures Joins(Keys(es, s)) == es[a].freq + es[b].freq + Joins(Keys(Joined(es, n, a, b), s'))
  {
    hide Height, Joins, Joined, Keys, Less;
    var u := Apart(s, a, b);
    BelowN(s, u, n, a, b);
    JoinFront(es, n, a, b, u);
    Replaced(multiset(s), a, b, n, u);
    KeysSame(es, [a] + ([b] + u), s);
    KeysSame(Joined(es, n, a, b), [n] + u, s');
  }

  lemma BelowN(s: seq<nat>, u: seq<nat>, n: nat, a: nat, b: nat)
    requires forall x :: x in multiset(s) ==> x < n
    requires multiset(s) == multiset{a} + (multiset{b} + multiset(u))
    ensures forall i | 0 <= i < |u| :: u[i] < n
  {
    forall i | 0 <= i < |u| ensures u[i] < n { assert u[i] in multiset(u) && u[i] in multiset(s); }
  }

  lemma Swapped(m: multiset<Key>, k: Key)
    ensures m + multiset{k} == multiset{k} + m
  {
  }

  lemma Replaced(m: multiset<nat>, a: nat, b: nat, n: nat, u: seq<nat>)
    requires m == multiset{a} + (multiset{b} + multiset(u))
    ensures m - multiset{a} - multiset{b} + multiset{n} == multiset([n] + u)
  {
  }

  lemma NoneLess(es: seq<Ent>, a: nat, b: nat, u: seq<nat>)
    requires a < |es| && b < |es| && !Less(es[b], es[a])
    requires forall x :: x in multiset([b] + u) ==> x < |es| && !Less(es[x], es[b])
    ensures forall x :: x in multiset([a] + ([b] + u)) ==> x < |es| && !Less(es[x], es[a])
  {
    forall x | x in multiset([a] + ([b] + u)) ensures x < |es| && !Less(es[x], es[a]) {
      assert x == a || x in multiset([b] + u);
    }
  }

  // The keys to start with.

  /** Symbols from `lo` to `hi` that occur, each a tree of its own. */
  ghost function Leaves(f: seq<nat>, lo: nat, hi: nat): multiset<Key>
    requires lo <= hi <= |f|
  {
    if lo == hi then multiset{}
    else if f[hi - 1] > 0 then Leaves(f, lo, hi - 1) + multiset{Key(f[hi - 1], 0)}
    else Leaves(f, lo, hi - 1)
  }

  /** The height of the tree built over frequencies. */
  ghost function HeightOf(f: seq<nat>): nat {
    Height(Leaves(f, 0, |f|))
  }

  // The height needs weight.

  ghost function Total(m: multiset<Key>): nat
    decreases |m|
  {
    if |m| == 0 then 0 else Least(m).freq + Total(m - multiset{Least(m)})
  }

  lemma TotalLeast(m: multiset<Key>)
    requires |m| > 0
    ensures Least(m) in m && |m - multiset{Least(m)}| == |m| - 1
    ensures Total(m) == Least(m).freq + Total(m - multiset{Least(m)})
  {
  }

  lemma TakeBoth(m: multiset<Key>, a: Key, x: Key)
    requires a in m && x in m && a != x
    ensures x in m - multiset{a} && a in m - multiset{x} && m - multiset{a} - multiset{x} == m - multiset{x} - multiset{a}
    ensures |m - multiset{x}| == |m| - 1
  {
  }

  lemma {:induction false} TotalWithout(m: multiset<Key>, x: Key)
    requires x in m
    ensures Total(m) == x.freq + Total(m - multiset{x})
    decreases |m|
  {
    hide Total, IsLeast;
    TotalLeast(m);
    var a := Least(m);
    if a != x {
      TakeBoth(m, a, x);
      TotalWithout(m - multiset{a}, x);
      TotalWithout(m - multiset{x}, a);
    }
  }

  lemma TotalMore(m: multiset<Key>, x: Key)
    ensures Total(m + multiset{x}) == Total(m) + x.freq
  {
    TotalWithout(m + multiset{x}, x);
    assert m + multiset{x} - multiset{x} == m;
  }

  ghost predicate AllHeavy(m: multiset<Key>, least: nat) {
    0 < least && forall k :: k in m ==> Heavy(Ent(k.freq, k.depth, 0), least)
  }

  lemma PairHeavy(m: multiset<Key>, least: nat, a: Key, b: Key)
    requires AllHeavy(m, least) && IsLeast(m, a) && IsLeast(m - multiset{a}, b)
    ensures AllHeavy(m - multiset{a} - multiset{b} + multiset{Pair(a, b)}, b.freq)
  {
    hide Fib;
    var p := Pair(a, b);
    assert b in m;
    JoinedHeavy(Ent(a.freq, a.depth, 0), Ent(b.freq, b.depth, 0), least, Ent(p.freq, p.depth, 0));
    forall k | k in m - multiset{a} - multiset{b} + multiset{p} ensures Heavy(Ent(k.freq, k.depth, 0), b.freq) {
      if k != p {
        assert k in m - multiset{a} && k in m;
      }
    }
  }

  /** A tree of some height has Fibonacci weight. */
  lemma {:induction false} HeightHeavy(m: multiset<Key>, least: nat)
    requires AllHeavy(m, least) && |m| > 0
    ensures Fib(Height(m) + 2) <= Total(m)
    decreases |m|
  {
    hide Fib, AllHeavy, Total, Height, Joins;
    var a := Least(m);
    var t := m - multiset{a};
    TotalWithout(m, a);
    if |m| > 1 {
      var b := Least(t);
      var u, p := t - multiset{b}, Pair(a, b);
      TotalWithout(t, b);
      TotalMore(u, p);
      PairHeavy(m, least, a, b);
      HeightStep(m, a, b);
      HeightHeavy(u + multiset{p}, b.freq);
    } else {
      HeightLast(m);
      OneHeavy(m, least, a);
    }
  }

  lemma OneHeavy(m: multiset<Key>, least: nat, a: Key)
    requires AllHeavy(m, least) && a in m
    ensures Fib(a.depth + 2) <= a.freq
  {
  }

  lemma {:induction false} LeavesHeavy(f: seq<nat>, lo: nat, hi: nat)
    requires lo <= hi <= |f|
    ensures AllHeavy(Leaves(f, lo, hi), 1)
  {
    assert Fib(2) == 1;
    if lo < hi { LeavesHeavy(f, lo, hi - 1); }
  }
}
