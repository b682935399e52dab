/** Facts about collections of any element type. */
module Collections {

  /** Some element, as the iteration over an unordered container finds it. */
  method Pick<T(==)>(s: set<T>) returns (x: T)
    requires s != {}
    ensures x in s
  {
    x :| x in s;
  }

  lemma OneMoreValue<K, V>(m: map<K, V>, k: K, v: V)
    ensures m[k := v].Values <= m.Values + {v}
  {
  }

  lemma PutIn<T>(a: seq<T>, x: T, b: seq<T>)
    ensures multiset(a + [x] + b) == multiset(a + b) + multiset{x}
  {
  }

  lemma TakeOut<T>(s: seq<T>, i: nat)
    requires i < |s|
    ensures multiset(s) == multiset(s[..i] + s[i + 1..]) + multiset{s[i]}
  {
    assert s == s[..i] + [s[i]] + s[i + 1..];
    PutIn(s[..i], s[i], s[i + 1..]);
  }

  lemma OneLess<T>(a: multiset<T>, b: multiset<T>, c: multiset<T>, x: T)
    requires a + multiset{x} == b + (c + multiset{x})
    ensures a == b + c
  {
    forall y ensures a[y] == (b + c)[y] {
      assert (a + multiset{x})[y] == (b + (c + multiset{x}))[y];
    }
  }

  lemma Associative<T>(a: seq<T>, b: seq<T>, c: seq<T>)
    ensures (a + b) + c == a + (b + c)
  {
  }

  lemma FrontAndLast<T>(s: seq<T>)
    requires s != []
    ensures s == s[..|s| - 1] + [s[|s| - 1]]
  {
  }

  lemma TailAfter<T>(x: T, s: seq<T>)
    ensures ([x] + s)[1..] == s
  {
  }

  lemma AppendedSuffix<T>(s: seq<T>, d: nat, x: T)
    requires d <= |s|
    ensures (s + [x])[d..] == s[d..] + [x]
  {
  }

  lemma SliceOfSuffix<T>(s: seq<T>, d: nat, i: nat, j: nat)
    requires d <= |s| && i <= j <= |s| - d
    ensures s[d..][i..j] == s[d + i..d + j]
  {
  }

  lemma SuffixTwice<T>(s: seq<T>, d: nat, n: nat)
    requires d + n <= |s|
    ensures s[d..][n..] == s[d + n..]
  {
  }
}
