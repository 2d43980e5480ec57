/** No prefix code is cheaper than one made by joining the two least. */
module LeastCost {
  import opened BitIO
  import opened TreeHeight

  /** A weight and the length of its code. */
  datatype Coded = Coded(key: Key, len: nat)

  function Bits(x: Coded): nat {
    x.key.freq * x.len
  }

  function CostOf(s: seq<Coded>): nat {
    if s == [] then 0 else CostOf(s[..|s| - 1]) + Bits(s[|s| - 1])
  }

  /** The share of the words of `m` bits that the codes take. */
  function Part(x: Coded, m: nat): nat {
    if x.len <= m then Pow2(m - x.len) else 0
  }

  function Parts(s: seq<Coded>, m: nat): nat {
    if s == [] then 0 else Parts(s[..|s| - 1], m) + Part(s[|s| - 1], m)
  }

  function KeysOf(s: seq<Coded>): multiset<Key> {
    if s == [] then multiset{} else KeysOf(s[..|s| - 1]) + multiset{s[|s| - 1].key}
  }

  ghost predicate UpTo(s: seq<Coded>, m: nat) {
    forall i | 0 <= i < |s| :: s[i].len <= m
  }

  function Lengths(s: seq<Coded>): nat {
    if s == [] then 0 else Lengths(s[..|s| - 1]) + s[|s| - 1].len
  }

  /** All but the one at `i`. */
  function But(s: seq<Coded>, i: nat): (t: seq<Coded>)
    requires i < |s|
    ensures |t| == |s| - 1 && forall j | 0 <= j < |t| :: t[j] == if j < i then s[j] else s[j + 1]
  {
    s[..i] + s[i + 1..]
  }

  lemma {:induction false} ButOne(s: seq<Coded>, i: nat, m: nat)
    requires i < |s|
    ensures CostOf(s) == CostOf(But(s, i)) + Bits(s[i])
    ensures Parts(s, m) == Parts(But(s, i), m) + Part(s[i], m)
    ensures Lengths(s) == Lengths(But(s, i)) + s[i].len
  {
    hide Part, Bits, KeysOf;
    var t := s[..|s| - 1];
    if i == |s| - 1 {
      assert But(s, i) == t;
    } else {
      ButOne(t, i, m);
      ButLast(s, i);
    }
  }

  lemma ButLast(s: seq<Coded>, i: nat)
    requires i < |s| - 1
    ensures var u := But(s, i); u[..|u| - 1] == But(s[..|s| - 1], i) && u[|u| - 1] == s[|s| - 1]
  {
    var u := But(s, i);
    assert u[..|u| - 1] == But(s[..|s| - 1], i);
  }

  lemma {:induction false} ButKeys(s: seq<Coded>, i: nat)
    requires i < |s|
    ensures KeysOf(s) == KeysOf(But(s, i)) + multiset{s[i].key}
  {
    hide But;
    var l, t := s[|s| - 1], s[..|s| - 1];
    KeysLast(s);
    if i == |s| - 1 {
      ButEnd(s);
    } else {
      ButKeys(t, i);
      ButLast(s, i);
      KeysLast(But(s, i));
      Reorder(KeysOf(But(t, i)), t[i].key, l.key);
    }
  }

  lemma ButEnd(s: seq<Coded>)
    requires s != []
    ensures But(s, |s| - 1) == s[..|s| - 1]
  {
  }

  lemma KeysLast(s: seq<Coded>)
    requires s != []
    ensures KeysOf(s) == KeysOf(s[..|s| - 1]) + multiset{s[|s| - 1].key}
  {
  }

  lemma Reorder(m: multiset<Key>, a: Key, b: Key)
    ensures m + multiset{a} + multiset{b} == m + multiset{b} + multiset{a}
  {
  }

  /** Another length for the one at `i`. */
  lemma Relength(s: seq<Coded>, i: nat, l: nat, m: nat)
    requires i < |s|
    ensures var t := s[i := s[i].(len := l)];
      && CostOf(t) + s[i].key.freq * s[i].len == CostOf(s) + s[i].key.freq * l
      && Parts(t, m) + Part(s[i], m) == Parts(s, m) + Part(t[i], m)
      && KeysOf(t) == KeysOf(s) && Lengths(t) + s[i].len == Lengths(s) + l
  {
    hide CostOf, Parts, KeysOf, Lengths, Part;
    var t := s[i := s[i].(len := l)];
    ButOne(s, i, m);
    ButOne(t, i, m);
    ButKeys(s, i);
    ButKeys(t, i);
    assert But(t, i) == But(s, i);
  }

  /** A lighter one takes the longer code: no dearer, and the parts are the same. */
  function Swapped(s: seq<Coded>, i: nat, j: nat): (t: seq<Coded>)
    requires i < |s| && j < |s|
    ensures |t| == |s| && forall k | 0 <= k < |t| :: t[k].key == s[k].key
  {
    s[i := s[i].(len := s[j].len)][j := s[j].(len := s[i].len)]
  }

  lemma Exchange(s: seq<Coded>, i: nat, j: nat, m: nat)
    requires i < |s| && j < |s| && i != j && s[i].key.freq <= s[j].key.freq && s[i].len <= s[j].len
    ensures CostOf(Swapped(s, i, j)) <= CostOf(s) && Parts(Swapped(s, i, j), m) == Parts(s, m)
    ensures KeysOf(Swapped(s, i, j)) == KeysOf(s)
  {
    hide CostOf, Parts, KeysOf, Lengths;
    Relength(s, i, s[j].len, m);
    Relength(s[i := s[i].(len := s[j].len)], j, s[i].len, m);
    Rearranged(s[i].key.freq, s[j].key.freq, s[i].len, s[j].len);
  }

  /** The smaller product with the larger: the sum of products is least. */
  lemma Rearranged(a: nat, b: nat, x: nat, y: nat)
    requires a <= b && x <= y
    ensures a * y + b * x <= a * x + b * y
  {
    assert (b - a) * (y - x) >= 0;
    assert (b - a) * (y - x) == b * y - b * x - a * y + a * x;
  }

  /** Longer words: all parts double. */
  lemma {:induction false} PartsDouble(s: seq<Coded>, m: nat)
    requires UpTo(s, m)
    ensures Parts(s, m + 1) == 2 * Parts(s, m)
  {
    if s != [] { PartsDouble(s[..|s| - 1], m); }
  }

  /** The size of the words does not matter. */
  lemma {:induction false} AnyWords(s: seq<Coded>, l: nat, m: nat)
    requires l <= m && UpTo(s, l)
    ensures Parts(s, l) <= Pow2(l) <==> Parts(s, m) <= Pow2(m)
    decreases m
  {
    if l < m {
      AnyWords(s, l, m - 1);
      PartsDouble(s, m - 1);
    }
  }

  /** Shorter codes take an even number of words. */
  lemma {:induction false} PartsEven(s: seq<Coded>, m: nat)
    requires forall i | 0 <= i < |s| :: s[i].len < m
    ensures Parts(s, m) % 2 == 0
  {
    if s != [] { PartsEven(s[..|s| - 1], m); }
  }

  lemma {:induction false} PartsMany(s: seq<Coded>, m: nat)
    requires UpTo(s, m)
    ensures |s| <= Parts(s, m)
  {
    if s != [] { PartsMany(s[..|s| - 1], m); }
  }

  lemma {:induction false} LongestOf(s: seq<Coded>) returns (i: nat)
    requires s != []
    ensures i < |s| && UpTo(s, s[i].len)
  {
    if |s| == 1 {
      i := 0;
    } else {
      i := LongestOf(s[..|s| - 1]);
      if s[i].len < s[|s| - 1].len { i := |s| - 1; }
    }
  }

  lemma {:induction false} PlaceOfKey(s: seq<Coded>, k: Key) returns (i: nat)
    requires k in KeysOf(s)
    ensures i < |s| && s[i].key == k
  {
    if s[|s| - 1].key == k {
      i := |s| - 1;
    } else {
      i := PlaceOfKey(s[..|s| - 1], k);
    }
  }

  lemma {:induction false} KeyAmong(s: seq<Coded>, i: nat)
    requires i < |s|
    ensures s[i].key in KeysOf(s)
  {
    if i < |s| - 1 { KeyAmong(s[..|s| - 1], i); }
  }

  lemma {:induction false} KeysSize(s: seq<Coded>)
    ensures |KeysOf(s)| == |s|
  {
    if s != [] { KeysSize(s[..|s| - 1]); }
  }

  /** The only longest code can be shorter. */
  lemma OneLongest(s: seq<Coded>, i: nat)
    requires 2 <= |s| && i < |s| && UpTo(s, s[i].len) && forall j | 0 <= j < |s| && j != i :: s[j].len < s[i].len
    requires Parts(s, s[i].len) <= Pow2(s[i].len)
    ensures 0 < s[i].len
    ensures var t := s[i := s[i].(len := s[i].len - 1)];
      && Parts(t, s[i].len) <= Pow2(s[i].len) && UpTo(t, s[i].len) && KeysOf(t) == KeysOf(s)
      && CostOf(t) <= CostOf(s) && Lengths(t) < Lengths(s)
  {
    hide CostOf, Parts, KeysOf, Lengths;
    var l := s[i].len;
    PartsMany(s, l);
    PowSmall();
    Relength(s, i, l - 1, l);
    ButOne(s, i, l);
    PartsEven(But(s, i), l);
    LessProduct(s[i].key.freq, l);
  }

  lemma PowSmall()
    ensures Pow2(0) == 1 && Pow2(1) == 2
  {
  }

  lemma LessProduct(a: nat, l: nat)
    requires 0 < l
    ensures a * (l - 1) <= a * l
  {
  }

  /** Two of the longest codes: the two least can have them. */
  lemma LeastDeepest(s: seq<Coded>, p: nat, q: nat, x: nat, y: nat, l: nat) returns (t: seq<Coded>)
    requires p < |s| && q < |s| && p != q && x < |s| && y < |s| && x != y && UpTo(s, l) && s[x].len == l == s[y].len
    requires forall i | 0 <= i < |s| :: s[p].key.freq <= s[i].key.freq
    requires forall i | 0 <= i < |s| && i != p :: s[q].key.freq <= s[i].key.freq
    ensures |t| == |s| && t[p].len == l == t[q].len && UpTo(t, l) && forall k | 0 <= k < |t| :: t[k].key == s[k].key
    ensures CostOf(t) <= CostOf(s) && Parts(t, l) == Parts(s, l) && KeysOf(t) == KeysOf(s)
  {
    hide CostOf, Parts, KeysOf;
    t := s;
    if s[p].len < l {
      var r := if x == q then y else x;
      Exchange(s, p, r, l);
      t := Swapped(s, p, r);
    }
    if t[q].len < l {
      var r := if t[x].len == l && x != p then x else y;
      if t[r].len == l && r != p {
        Exchange(t, q, r, l);
        t := Swapped(t, q, r);
      }
    }
  }

  /** All but two. */
  function ButTwo(s: seq<Coded>, p: nat, q: nat): (v: seq<Coded>)
    requires p < |s| && q < |s| && p != q
    ensures |v| == |s| - 2
  {
    But(But(s, p), if q < p then q else q - 1)
  }

  lemma TakeTwo(s: seq<Coded>, p: nat, q: nat, l: nat)
    requires p < |s| && q < |s| && p != q
    ensures CostOf(s) == CostOf(ButTwo(s, p, q)) + Bits(s[p]) + Bits(s[q])
    ensures Parts(s, l) == Parts(ButTwo(s, p, q), l) + Part(s[p], l) + Part(s[q], l)
  {
    hide CostOf, Parts, KeysOf, Part, Bits, Lengths;
    var r := if q < p then q else q - 1;
    ButOne(s, p, l);
    ButOne(But(s, p), r, l);
  }

  lemma TakeUpTo(s: seq<Coded>, p: nat, q: nat, l: nat)
    requires p < |s| && q < |s| && p != q && UpTo(s, l)
    ensures UpTo(ButTwo(s, p, q), l)
  {
  }

  lemma TakeKeys(s: seq<Coded>, p: nat, q: nat)
    requires p < |s| && q < |s| && p != q
    ensures KeysOf(s) == KeysOf(ButTwo(s, p, q)) + multiset{s[q].key} + multiset{s[p].key}
  {
    hide KeysOf;
    var r := if q < p then q else q - 1;
    ButKeys(s, p);
    ButKeys(But(s, p), r);
  }

  lemma OneCodeMore(v: seq<Coded>, c: Coded, l: nat)
    ensures CostOf(v + [c]) == CostOf(v) + Bits(c) && Parts(v + [c], l) == Parts(v, l) + Part(c, l)
    ensures KeysOf(v + [c]) == KeysOf(v) + multiset{c.key}
  {
    var s := v + [c];
    assert s[..|s| - 1] == v;
  }

  /** Two codes that differ in the last bit become one. */
  lemma MergeTwo(s: seq<Coded>, p: nat, q: nat, l: nat) returns (t: seq<Coded>)
    requires p < |s| && q < |s| && p != q && UpTo(s, l) && s[p].len == l == s[q].len && 0 < l
    ensures |t| == |s| - 1 && UpTo(t, l) && Parts(t, l) == Parts(s, l)
    ensures CostOf(s) == CostOf(t) + s[p].key.freq + s[q].key.freq
    ensures KeysOf(t) == KeysOf(s) - multiset{s[p].key} - multiset{s[q].key} + multiset{Pair(s[p].key, s[q].key)}
  {
    hide CostOf, Parts, KeysOf, ButTwo;
    var a, b := s[p].key, s[q].key;
    var v := ButTwo(s, p, q);
    TakeTwo(s, p, q, l);
    TakeKeys(s, p, q);
    TakeUpTo(s, p, q, l);
    var c := Coded(Pair(a, b), l - 1);
    t := v + [c];
    OneCodeMore(v, c, l);
    PowSmall();
    MergedCost(a.freq, b.freq, l);
    MergedKeys(KeysOf(v), a, b);
  }

  lemma MergedCost(a: nat, b: nat, l: nat)
    requires 0 < l
    ensures (a + b) * (l - 1) + a + b == a * l + b * l
  {
  }

  lemma MergedKeys(m: multiset<Key>, a: Key, b: Key)
    ensures (m + multiset{b} + multiset{a}) - multiset{a} - multiset{b} + multiset{Pair(a, b)} == m + multiset{Pair(a, b)}
  {
  }

  /** Where the least two are. */
  lemma LeastPlaces(s: seq<Coded>) returns (p: nat, q: nat)
    requires 2 <= |s|
    ensures p < |s| && q < |s| && p != q
    ensures IsLeast(KeysOf(s), s[p].key) && IsLeast(KeysOf(s) - multiset{s[p].key}, s[q].key)
    ensures forall i | 0 <= i < |s| :: s[p].key.freq <= s[i].key.freq
    ensures forall i | 0 <= i < |s| && i != p :: s[q].key.freq <= s[i].key.freq
  {
    hide KeysOf;
    KeysSize(s);
    var a := Least(KeysOf(s));
    p := PlaceOfKey(s, a);
    ButKeys(s, p);
    var u := But(s, p);
    KeysSize(u);
    assert KeysOf(s) - multiset{a} == KeysOf(u);
    var b := Least(KeysOf(u));
    var r := PlaceOfKey(u, b);
    q := if r < p then r else r + 1;
    forall i | 0 <= i < |s| ensures a.freq <= s[i].key.freq { KeyAmong(s, i); }
    forall i | 0 <= i < |s| && i != p ensures b.freq <= s[i].key.freq {
      var j := if i < p then i else i - 1;
      assert u[j] == s[i];
      KeyAmong(u, j);
    }
  }

  /** A code that fits (Kraft) costs at least what the joins do. */
  lemma {:induction false} JoinsLeast(s: seq<Coded>, m: nat)
    requires s != [] && UpTo(s, m) && Parts(s, m) <= Pow2(m)
    ensures Joins(KeysOf(s)) <= CostOf(s)
    decreases |s|, Lengths(s)
  {
    hide CostOf, Parts, KeysOf, Joins, IsLeast, Height, Lengths;
    KeysSize(s);
    if |s| == 1 {
      JoinsNone(KeysOf(s));
    } else {
      var x := LongestOf(s);
      var l := s[x].len;
      AnyWords(s, l, m);
      if y: nat :| y < |s| && y != x && s[y].len == l {
        var p, q := LeastPlaces(s);
        var t := LeastDeepest(s, p, q, x, y, l);
        PartsMany(s, l);
        PowSmall();
        var u := MergeTwo(t, p, q, l);
        JoinsLeast(u, l);
        HeightStep(KeysOf(s), s[p].key, s[q].key);
      } else {
        OneLongest(s, x);
        JoinsLeast(s[x := s[x].(len := l - 1)], l);
      }
    }
  }
}
