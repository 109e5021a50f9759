/** Sequence vocabulary shared by the canonicaliser, the label registry and the
    reference codec: the distinct elements of a sequence in order of first
    appearance, the first index of an element, the "canonical" renaming of a
    sequence that replaces every element by the rank of its first appearance,
    and the maximum of a list of integers. */
module Seqs {

  /** No element occurs twice. */
  predicate NoDup<T(==)>(s: seq<T>) {
    forall i, j :: 0 <= i < j < |s| ==> s[i] != s[j]
  }

  /** The elements of s, each kept once, in order of first appearance
      (what a loop appending every element "not in" the list so far builds). */
  function Distinct<T(==)>(s: seq<T>): (d: seq<T>)
    ensures forall i :: 0 <= i < |d| ==> d[i] in s
    ensures forall i :: 0 <= i < |s| ==> s[i] in d
    ensures NoDup(d)
    ensures |d| <= |s|
  {
    if |s| == 0 then []
    else
      var p := Distinct(s[..|s| - 1]);
      assert forall i :: 0 <= i < |s| - 1 ==> s[i] == s[..|s| - 1][i];
      if s[|s| - 1] in p then p else p + [s[|s| - 1]]
  }

  /** The first index holding x (Python's list.index). */
  function IndexOf<T(==)>(s: seq<T>, x: T): (i: nat)
    requires x in s
    ensures i < |s| && s[i] == x
    ensures forall j :: 0 <= j < i ==> s[j] != x
  {
    if s[0] == x then 0 else 1 + IndexOf(s[1..], x)
  }

  /** Every element replaced by the rank of its first appearance. */
  function Canonical<T(==)>(s: seq<T>): (c: seq<nat>)
    ensures |c| == |s|
  {
    seq(|s|, i requires 0 <= i < |s| => IndexOf(Distinct(s), s[i]))
  }

  /** Two sequences have the same equality pattern. */
  predicate SamePattern<T(==), U(==)>(s: seq<T>, t: seq<U>) {
    |s| == |t| && forall i, j :: 0 <= i < |s| && 0 <= j < |s| ==> (s[i] == s[j] <==> t[i] == t[j])
  }

  /** The largest element of a non-empty list (Python's max). */
  function Max(s: seq<int>): (m: int)
    requires |s| > 0
    ensures m in s
    ensures forall x :: x in s ==> x <= m
  {
    if |s| == 1 then s[0]
    else
      var m := Max(s[1..]);
      assert forall x :: x in s ==> x == s[0] || x in s[1..];
      if s[0] >= m then s[0] else m
  }

  /** The smallest element of a non-empty list (Python's min). */
  function Min(s: seq<int>): (m: int)
    requires |s| > 0
    ensures m in s
    ensures forall x :: x in s ==> m <= x
  {
    if |s| == 1 then s[0]
    else
      var m := Min(s[1..]);
      assert forall x :: x in s ==> x == s[0] || x in s[1..];
      if s[0] <= m then s[0] else m
  }

  /** A sequence without duplicates has as many distinct elements as entries. */
  lemma {:induction false} NoDupCard<T>(d: seq<T>)
    requires NoDup(d)
    ensures |set x | x in d| == |d|
  {
    if |d| > 0 {
      var p := d[..|d| - 1];
      NoDupCard(p);
      assert (set x | x in d) == (set x | x in p) + {d[|d| - 1]};
      assert d[|d| - 1] !in p;
    }
  }

  /** The distinct elements of a prefix are a prefix of the distinct elements. */
  lemma {:induction false} DistinctPrefix<T>(s: seq<T>, k: nat)
    requires k <= |s|
    ensures Distinct(s[..k]) <= Distinct(s)
    decreases |s| - k
  {
    if k < |s| {
      var p := s[..|s| - 1];
      assert p[..k] == s[..k];
      DistinctPrefix(p, k);
    } else {
      assert s[..k] == s;
    }
  }

  /** Growing the list by one element: the distinct list grows exactly when
      the element is new. */
  lemma DistinctSnoc<T>(s: seq<T>, k: nat)
    requires k < |s|
    ensures s[k] in s[..k] ==> Distinct(s[..k + 1]) == Distinct(s[..k])
    ensures s[k] !in s[..k] ==> Distinct(s[..k + 1]) == Distinct(s[..k]) + [s[k]]
  {
    assert s[..k + 1][..k] == s[..k];
  }

  /** The first index of an element of a prefix is the same in the whole list. */
  lemma IndexOfPrefix<T>(p: seq<T>, s: seq<T>, x: T)
    requires p <= s && x in p
    ensures x in s && IndexOf(s, x) == IndexOf(p, x)
  {
    var j := IndexOf(p, x);
    assert s[j] == x;
  }

  /** Distinct keeps the order of first appearance: an earlier entry is
      first met earlier in s. */
  lemma {:induction false} DistinctFirstVisitOrder<T>(s: seq<T>)
    ensures forall i, j :: 0 <= i < j < |Distinct(s)| ==> IndexOf(s, Distinct(s)[i]) < IndexOf(s, Distinct(s)[j])
  {
    if |s| > 0 {
      var p := s[..|s| - 1];
      DistinctFirstVisitOrder(p);
      var d, dp := Distinct(s), Distinct(p);
      forall i, j | 0 <= i < j < |d| ensures IndexOf(s, d[i]) < IndexOf(s, d[j]) {
        assert d[i] == dp[i];
        IndexOfPrefix(p, s, d[i]);
        if j < |dp| {
          assert d[j] == dp[j];
          IndexOfPrefix(p, s, d[j]);
        } else {
          assert d[j] == s[|s| - 1] && d[j] !in p;
        }
      }
    }
  }

  /** Equal canonical symbols exactly at equal elements. */
  lemma CanonicalSame<T>(s: seq<T>, i: nat, j: nat)
    requires i < |s| && j < |s|
    ensures Canonical(s)[i] == Canonical(s)[j] <==> s[i] == s[j]
  {
  }

  /** A list and its canonical renaming have the same equality pattern. */
  lemma CanonicalPattern<T>(s: seq<T>)
    ensures SamePattern(s, Canonical(s))
  {
    forall i, j | 0 <= i < |s| && 0 <= j < |s|
      ensures s[i] == s[j] <==> Canonical(s)[i] == Canonical(s)[j]
    {
      CanonicalSame(s, i, j);
    }
  }

  /** Position i of the canonical renaming: an element seen before gets the
      symbol it got the first time; a new element gets the next unused symbol,
      the number of distinct elements before it. */
  lemma CanonicalGrowth<T>(s: seq<T>, i: nat)
    requires i < |s|
    ensures Canonical(s)[i] <= |Distinct(s[..i])|
    ensures Canonical(s)[i] == |Distinct(s[..i])| <==> s[i] !in s[..i]
    ensures s[i] in s[..i] ==> Canonical(s)[i] == Canonical(s)[IndexOf(s, s[i])]
  {
    var d := Distinct(s);
    DistinctPrefix(s, i + 1);
    DistinctSnoc(s, i);
    var q := Distinct(s[..i + 1]);
    assert s[i] in s[..i + 1];
    IndexOfPrefix(q, d, s[i]);
    if s[i] in s[..i] {
      var j := IndexOf(s, s[i]);
      assert s[..i][IndexOf(s[..i], s[i])] == s[i];
      assert j < i;
      CanonicalSame(s, i, j);
    } else {
      assert q[|q| - 1] == s[i];
      assert IndexOf(q, s[i]) == |q| - 1;
    }
  }

  /** Under the same equality pattern, position n repeats an earlier entry in
      one list exactly when it does in the other. */
  lemma PatternRepeat<T, U>(s: seq<T>, t: seq<U>, n: nat)
    requires SamePattern(s, t) && n < |s|
    ensures s[n] in s[..n] <==> t[n] in t[..n]
  {
    if s[n] in s[..n] {
      var j :| 0 <= j < n && s[..n][j] == s[n];
      assert t[..n][j] == t[n];
    }
    if t[n] in t[..n] {
      var j :| 0 <= j < n && t[..n][j] == t[n];
      assert s[..n][j] == s[n];
    }
  }

  /** One step of SamePatternPrefix: position n gets the same symbol in both. */
  lemma PatternSymbol<T, U>(s: seq<T>, t: seq<U>, n: nat)
    requires SamePattern(s, t) && n < |s|
    requires Canonical(s)[..n] == Canonical(t)[..n]
    requires |Distinct(s[..n])| == |Distinct(t[..n])|
    ensures Canonical(s)[n] == Canonical(t)[n]
  {
    PatternRepeat(s, t, n);
    CanonicalGrowth(s, n);
    CanonicalGrowth(t, n);
    if s[n] in s[..n] {
      var j := IndexOf(s, s[n]);
      assert t[j] == t[n];
      CanonicalSame(t, j, n);
      assert Canonical(s)[..n][j] == Canonical(t)[..n][j];
    }
  }

  /** The first k + 1 entries are the first k and entry k. */
  lemma SnocPrefix<T>(a: seq<T>, k: nat)
    requires k < |a|
    ensures a[..k + 1] == a[..k] + [a[k]]
  {
  }

  /** Two lists that agree on their first n entries and on entry n agree on
      their first n + 1 entries. */
  lemma PrefixExtend<T>(a: seq<T>, b: seq<T>, n: nat)
    requires n < |a| && n < |b| && a[..n] == b[..n] && a[n] == b[n]
    ensures a[..n + 1] == b[..n + 1]
  {
    assert a[..n + 1] == a[..n] + [a[n]];
    assert b[..n + 1] == b[..n] + [b[n]];
  }

  /** The canonical symbols of the first k entries and the number of distinct
      elements among them depend only on the equality pattern. */
  lemma {:induction false} SamePatternPrefix<T, U>(s: seq<T>, t: seq<U>, k: nat)
    requires SamePattern(s, t) && k <= |s|
    ensures Canonical(s)[..k] == Canonical(t)[..k]
    ensures |Distinct(s[..k])| == |Distinct(t[..k])|
  {
    if k > 0 {
      var n := k - 1;
      SamePatternPrefix(s, t, n);
      PatternRepeat(s, t, n);
      DistinctSnoc(s, n);
      DistinctSnoc(t, n);
      PatternSymbol(s, t, n);
      PrefixExtend(Canonical(s), Canonical(t), n);
    } else {
      assert s[..0] == [];
      assert t[..0] == [];
    }
  }

  /** Canonical renamings agree exactly when the equality patterns agree. */
  lemma CanonicalEqualIff<T, U>(s: seq<T>, t: seq<U>)
    ensures Canonical(s) == Canonical(t) <==> SamePattern(s, t)
  {
    if SamePattern(s, t) {
      SamePatternPrefix(s, t, |s|);
      assert Canonical(s)[..|s|] == Canonical(s);
      assert Canonical(t)[..|t|] == Canonical(t);
    }
    if Canonical(s) == Canonical(t) {
      CanonicalPattern(s);
      CanonicalPattern(t);
    }
  }

  /** The same elements as the list itself. */
  lemma DistinctMembers<T>(s: seq<T>, x: T)
    ensures x in Distinct(s) <==> x in s
  {
    if x in s {
      var i :| 0 <= i < |s| && s[i] == x;
    }
  }

  /** Every element of s mapped to its first index in s (the dictionary built
      by giving each new element the next integer). */
  function IndexMap<T(==)>(s: seq<T>): (m: map<T, nat>)
    ensures forall x :: x in s ==> x in m
    ensures forall x :: x in m ==> m[x] < |s| && s[m[x]] == x
  {
    map x | x in s :: IndexOf(s, x)
  }

  /** Appending a new element gives it the next index and keeps the others. */
  lemma IndexMapSnoc<T>(s: seq<T>, x: T)
    requires x !in s
    ensures IndexMap(s + [x]) == IndexMap(s)[x := |s|]
  {
    var a, b := IndexMap(s + [x]), IndexMap(s)[x := |s|];
    forall y | y in s + [x]
      ensures y in a && y in b && a[y] == b[y]
    {
      if y in s {
        IndexOfPrefix(s, s + [x], y);
      } else {
        assert y == x;
        assert (s + [x])[|s|] == x;
      }
    }
    assert a.Keys == b.Keys;
  }

  /** Over a list without duplicates the index map has one key per entry and
      its values are exactly the indices 0 .. |s| - 1. */
  lemma IndexMapOfNoDup<T>(s: seq<T>)
    requires NoDup(s)
    ensures |IndexMap(s)| == |s|
    ensures forall v :: v in IndexMap(s).Values <==> 0 <= v < |s|
    ensures forall l :: 0 <= l < |s| ==> s[l] in IndexMap(s) && IndexMap(s)[s[l]] == l
  {
    var m := IndexMap(s);
    NoDupCard(s);
    assert m.Keys == set x | x in s;
    forall l | 0 <= l < |s|
      ensures s[l] in m && m[s[l]] == l
    {
      assert s[m[s[l]]] == s[l];
    }
    forall l | 0 <= l < |s|
      ensures l in m.Values
    {
      assert m[s[l]] == l;
    }
  }

  /** Every index of s mapped to its entry (the inverse direction of IndexMap). */
  function ListMap<T>(s: seq<T>): (m: map<nat, T>)
    ensures forall l :: l in m <==> 0 <= l < |s|
  {
    map l | 0 <= l < |s| :: s[l]
  }

  /** Two maps that invert each other on their whole domains. */
  predicate Inverse<K, V>(m: map<K, V>, inv: map<V, K>) {
    (forall k :: k in m ==> m[k] in inv && inv[m[k]] == k) &&
    (forall v :: v in inv ==> inv[v] in m && m[inv[v]] == v)
  }

  /** A map whose values are pairwise distinct. */
  predicate Injective<K, V(==)>(m: map<K, V>) {
    forall a, b :: a in m && b in m && m[a] == m[b] ==> a == b
  }

  /** Over a list without duplicates, IndexMap and ListMap invert each other. */
  lemma IndexListInverse<T>(s: seq<T>)
    requires NoDup(s)
    ensures Inverse(IndexMap(s), ListMap(s))
  {
    IndexMapOfNoDup(s);
  }

  /** A map keyed on the values of IndexMap(s) that sends each key back to an
      element with that index is ListMap(s). */
  lemma ListMapUnique<T>(s: seq<T>, inv: map<nat, T>)
    requires NoDup(s)
    requires inv.Keys == IndexMap(s).Values
    requires forall l :: l in inv ==> inv[l] in IndexMap(s) && IndexMap(s)[inv[l]] == l
    ensures inv == ListMap(s)
  {
    IndexMapOfNoDup(s);
    assert inv.Keys == ListMap(s).Keys;
  }

  /** The number of distinct elements of s is the length of Distinct(s). */
  lemma DistinctCard<T>(s: seq<T>)
    ensures |set x | x in s| == |Distinct(s)|
  {
    var d := Distinct(s);
    forall x ensures x in s <==> x in d {
      DistinctMembers(s, x);
    }
    assert (set x | x in s) == set x | x in d;
    NoDupCard(d);
  }

  /** ListMap(s) has one key per index. */
  lemma {:induction false} ListMapCard<T>(s: seq<T>)
    ensures |ListMap(s)| == |s|
  {
    if |s| > 0 {
      var p := s[..|s| - 1];
      ListMapCard(p);
      assert ListMap(s) == ListMap(p)[|p| := s[|p|]];
      assert |p| !in ListMap(p);
    }
  }

  /** An element whose first occurrence is at i has index i. */
  lemma IndexOfFirst<T>(s: seq<T>, i: nat)
    requires i < |s| && forall j :: 0 <= j < i ==> s[j] != s[i]
    ensures IndexOf(s, s[i]) == i
  {
  }
}
