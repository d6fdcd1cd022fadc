// Ordered views of key sets and facts about finite sets of integers, shared by all modules.
module Basics {
  datatype Option<+T> = None | Some(value: T)

  ghost predicate Ascending(s: seq<int>) {
    forall i, j :: 0 <= i < j < |s| ==> s[i] < s[j]
  }

  lemma Pick<T>(s: set<T>) returns (y: T)
    requires s != {}
    ensures y in s
  {
    y :| y in s;
  }

  ghost predicate IsLeast(m: int, s: set<int>) {
    m in s && forall x | x in s :: m <= x
  }

  lemma {:induction false} LeastExists(s: set<int>) returns (m: int)
    requires s != {}
    ensures IsLeast(m, s)
  {
    m := Pick(s);
    var rest := s - {m};
    if rest != {} {
      var n := LeastExists(rest);
      assert s == rest + {m};
      m := if n < m then n else m;
    } else {
      assert s == {m};
    }
  }

  function Least(s: set<int>): (m: int)
    requires s != {}
    ensures IsLeast(m, s)
  {
    assert exists m :: IsLeast(m, s) by { var m := LeastExists(s); }
    var m :| m in s && forall x | x in s :: m <= x;
    m
  }

  /** The iteration order of an ordered dictionary: its keys, ascending. */
  function SortedKeys(s: set<int>): (r: seq<int>)
    ensures Ascending(r) && |r| == |s|
    ensures forall x :: x in r <==> x in s
  {
    if s == {} then [] else
      var m := Least(s);
      var rest := SortedKeys(s - {m});
      assert forall x | x in rest :: x in s - {m};
      [m] + rest
  }

  lemma SortedKeysStep(s: set<int>)
    requires SortedKeys(s) != []
    ensures SortedKeys(s)[0] in s && SortedKeys(s)[1..] == SortedKeys(s - {SortedKeys(s)[0]})
  {
  }

  /** The number of keys below `key`: the index at which `key` would be inserted. */
  function BisectLeft(keys: seq<int>, key: int): (i: nat)
    requires Ascending(keys)
    ensures i <= |keys|
    ensures forall j :: 0 <= j < i ==> keys[j] < key
    ensures forall j :: i <= j < |keys| ==> key <= keys[j]
  {
    if |keys| == 0 then 0
    else if keys[|keys| - 1] < key then |keys|
    else BisectLeft(keys[..|keys| - 1], key)
  }

  ghost function Interval(lo: int, hi: int): (r: set<int>)
    ensures forall p :: p in r <==> lo <= p < hi
    decreases hi - lo
  {
    if lo < hi then Interval(lo, hi - 1) + {hi - 1} else {}
  }

  lemma {:induction false} IntervalSize(lo: int, hi: int)
    requires lo <= hi
    ensures |Interval(lo, hi)| == hi - lo
    decreases hi - lo
  {
    if lo < hi {
      IntervalSize(lo, hi - 1);
    }
  }

  lemma {:induction false} SubsetSize<T>(a: set<T>, b: set<T>)
    requires a <= b
    ensures |a| <= |b|
    ensures |a| == |b| <==> a == b
  {
    assert b == a + (b - a);
    assert |b| == |a| + |b - a|;
    if |a| == |b| {
      assert b - a == {};
    }
  }

  lemma DisjointUnionSize<T(!new)>(a: set<T>, b: set<T>, c: set<T>)
    requires forall p :: p in c <==> p in a || p in b
    requires forall p :: !(p in a && p in b)
    ensures |c| == |a| + |b|
  {
    assert c == a + b;
    assert a !! b;
  }

  lemma DifferenceSize<T(!new)>(a: set<T>, b: set<T>, c: set<T>)
    requires forall p :: (p in c <==> p in a && p !in b) && (p in b ==> p in a)
    ensures |c| == |a| - |b|
  {
    assert c == a - b;
    assert b <= a;
  }

  /** Removing one more of the keys that are to go. */
  lemma RemoveOne<K, V>(m: map<K, V>, gone: set<K>, left: set<K>, k: K)
    requires k in left && left <= gone
    ensures m - (gone - left) - {k} == m - (gone - (left - {k}))
    ensures k in m ==> k in m - (gone - left)
  {
  }

  lemma InsertSize<K, V>(m: map<K, V>, k: K, v: V)
    ensures |m[k := v]| <= |m| + 1
  {
    assert m[k := v].Keys == m.Keys + {k};
  }

  lemma Overwrite<K, V>(m: map<K, V>, k: K, a: V, b: V)
    ensures m[k := a][k := b] == m[k := b]
    ensures k in m ==> m[k := m[k]] == m
  {
  }

  lemma RemoveNone<K, V>(m: map<K, V>, gone: set<K>)
    ensures m - (gone - gone) == m && m - (gone - {}) == m - gone
  {
    assert gone - {} == gone;
  }

  lemma OneLess<T(!new)>(a: set<T>, b: set<T>, x: T)
    requires x in a && x !in b && forall y | y != x :: y in a <==> y in b
    ensures |a| == |b| + 1
  {
    assert a == b + {x};
  }

  ghost function AnyOf<T>(s: set<T>): (x: T)
    requires s != {}
    ensures x in s
  {
    var x :| x in s;
    x
  }

  /** The sum of `f` over a finite set; the order of the terms does not matter. */
  ghost function SumOver<T>(s: set<T>, f: T -> int): int {
    if s == {} then 0
    else
      var x := AnyOf(s);
      f(x) + SumOver(s - {x}, f)
  }

  lemma {:induction false} SumOverAdd<T>(s: set<T>, f: T -> int, x: T)
    requires x !in s
    ensures SumOver(s + {x}, f) == SumOver(s, f) + f(x)
    decreases |s|
  {
    var y := AnyOf(s + {x});
    if y == x {
      assert s + {x} - {x} == s;
    } else {
      var rest := s - {y};
      assert s + {x} - {y} == rest + {x} && rest + {y} == s;
      SumOverAdd(rest, f, x);
      SumOverAdd(rest, f, y);
    }
  }

  lemma {:induction false} SumOverSame<T>(s: set<T>, f: T -> int, g: T -> int)
    requires forall x | x in s :: f(x) == g(x)
    ensures SumOver(s, f) == SumOver(s, g)
    decreases |s|
  {
    if s != {} {
      SumOverSame(s - {AnyOf(s)}, f, g);
    }
  }

  lemma SumOverBump<T>(s: set<T>, f: T -> int, g: T -> int, x: T, d: int)
    requires x in s && g(x) == f(x) + d && forall y | y in s && y != x :: g(y) == f(y)
    ensures SumOver(s, g) == SumOver(s, f) + d
  {
    var rest := s - {x};
    assert rest + {x} == s;
    SumOverAdd(rest, f, x);
    SumOverAdd(rest, g, x);
    SumOverSame(rest, f, g);
  }

  lemma {:induction false} SumOverZero<T>(s: set<T>, f: T -> int)
    requires forall x | x in s :: f(x) == 0
    ensures SumOver(s, f) == 0
    decreases |s|
  {
    if s != {} {
      SumOverZero(s - {AnyOf(s)}, f);
    }
  }

  lemma MapSizes<K, V>(m: map<K, V>, k: K, v: V)
    ensures |m[k := v]| == |m| + (if k in m then 0 else 1)
    ensures k in m ==> |m - {k}| == |m| - 1
  {
  }

  /** Without repeats only membership matters. */
  lemma {:induction false} DistinctElements<T>(s: seq<T>, elements: set<T>)
    requires forall i, j | 0 <= i < j < |s| :: s[i] != s[j]
    requires forall x :: x in s <==> x in elements
    ensures multiset(s) == multiset(elements)
    decreases |s|
  {
    if |s| == 0 {
      assert elements == {};
    } else {
      var rest, last := s[..|s| - 1], s[|s| - 1];
      assert s == rest + [last];
      DistinctElements(rest, elements - {last});
    }
  }

  lemma Repeated<T>(s: seq<T>, i: nat, j: nat)
    requires i < j < |s| && s[i] == s[j]
    ensures multiset(s)[s[i]] >= 2
  {
    assert s == s[..j] + s[j..];
    assert s[i] in s[..j] && s[i] in s[j..];
  }

  lemma SetHasNoRepeats<T>(s: seq<T>, elements: set<T>, i: nat, j: nat)
    requires multiset(s) == multiset(elements) && i < j < |s|
    ensures s[i] != s[j]
  {
    if s[i] == s[j] {
      Repeated(s, i, j);
    }
  }

  lemma PartitionSize<T(!new)>(all: set<T>, a: set<T>, b: set<T>, c: set<T>)
    requires forall x :: x in all <==> x in a || x in b || x in c
    requires forall x :: !(x in a && x in b) && !(x in a && x in c) && !(x in b && x in c)
    ensures |all| == |a| + |b| + |c|
  {
    DisjointUnionSize(a, b, a + b);
    DisjointUnionSize(a + b, c, all);
  }
}
