/** Small notions shared by the other modules. */
module Basics {
  datatype Option<+T> = None | Some(value: T)

  function Lookup<K, V>(m: map<K, V>, k: K): (r: Option<V>)
    ensures r.Some? <==> k in m
  {
    if k in m then Some(m[k]) else None
  }

  function Without<K, V>(m: map<K, V>, k: K): (r: map<K, V>)
    ensures r.Keys == m.Keys - {k}
    ensures k !in m ==> r == m
  {
    map x | x in m && x != k :: m[x]
  }

  function Pow2(n: nat): (r: nat)
    ensures r > 0
  {
    if n == 0 then 1 else 2 * Pow2(n - 1)
  }

  lemma {:induction false} Pow2Sum(m: nat, n: nat)
    ensures Pow2(m + n) == Pow2(m) * Pow2(n)
  {
    if n > 0 { Pow2Sum(m, n - 1); }
  }

  lemma {:induction false} SubsetSize<T>(a: set<T>, b: set<T>)
    requires a <= b
    ensures |a| <= |b|
    ensures |a| == |b| ==> a == b
  {
    assert b == a + (b - a);
  }

  lemma {:induction false} Regroup<T>(a: seq<T>, b: seq<T>, c: seq<T>)
    ensures (a + b) + c == a + (b + c)
  {
  }

  lemma {:induction false} Extend<T>(s: seq<T>, i: nat)
    requires i < |s|
    ensures s[..i] + [s[i]] == s[..i + 1] && s[..i + 1][..i] == s[..i]
    ensures s[..|s|] == s
  {
  }

  lemma {:induction false} MultipleGap(a: int, m: nat)
    ensures a == 0 || a * m >= m || a * m + m <= 0
  {
    if a >= 1 {
      assert (a - 1) * m >= 0;
    } else if a <= -1 {
      assert (-a - 1) * m >= 0;
    }
  }

  lemma {:induction false} ModUnique(x: nat, m: nat, q: nat, r: nat)
    requires m > 0 && r < m && x == q * m + r
    ensures x % m == r && x / m == q
  {
    var q', r' := x / m, x % m;
    assert x == q' * m + r' && 0 <= r' < m;
    assert (q' - q) * m == r - r';
    MultipleGap(q' - q, m);
  }
}
