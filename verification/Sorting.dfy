// Sorting by a weight, largest first, for the two reports that are sorted.
module Sorting {
  ghost predicate Descending<T>(s: seq<T>, weight: T -> real) {
    forall i, j | 0 <= i < j < |s| :: weight(s[i]) >= weight(s[j])
  }

  /** How many elements stay in front of a new one of this weight. */
  function Position<T>(s: seq<T>, weight: T -> real, w: real): (k: nat)
    requires Descending(s, weight)
    ensures k <= |s|
    ensures forall i | 0 <= i < k :: weight(s[i]) >= w
    ensures forall i | k <= i < |s| :: weight(s[i]) < w
  {
    if |s| == 0 then 0
    else if weight(s[|s| - 1]) >= w then |s|
    else Position(s[..|s| - 1], weight, w)
  }

  function Insert<T>(s: seq<T>, weight: T -> real, x: T): seq<T>
    requires Descending(s, weight)
  {
    var k := Position(s, weight, weight(x));
    s[..k] + [x] + s[k..]
  }

  lemma InsertKeeps<T>(s: seq<T>, weight: T -> real, x: T)
    requires Descending(s, weight)
    ensures Descending(Insert(s, weight, x), weight)
  {
  }

  lemma InsertAdds<T>(s: seq<T>, weight: T -> real, x: T)
    requires Descending(s, weight)
    ensures multiset(Insert(s, weight, x)) == multiset(s) + multiset{x}
  {
    var k := Position(s, weight, weight(x));
    assert s == s[..k] + s[k..];
  }

  method Sort<T>(s: seq<T>, weight: T -> real) returns (sorted: seq<T>)
    ensures multiset(sorted) == multiset(s) && Descending(sorted, weight)
  {
    hide Insert, Descending;
    sorted := [];
    EmptyDescends(weight);
    for i := 0 to |s|
      invariant multiset(sorted) == multiset(s[..i]) && Descending(sorted, weight)
    {
      assert s[..i + 1] == s[..i] + [s[i]];
      InsertKeeps(sorted, weight, s[i]);
      InsertAdds(sorted, weight, s[i]);
      sorted := Insert(sorted, weight, s[i]);
    }
    assert s[..|s|] == s;
  }

  lemma EmptyDescends<T>(weight: T -> real)
    ensures Descending([], weight)
  {
  }

  // --- When the order is determined -------------------------------------------

  /** The relation `weight(a) >= weight(b)`, used as "a goes before b". */
  predicate NotLess<T>(weight: T -> real, a: T, b: T) {
    weight(a) >= weight(b)
  }

  ghost predicate NoTies<T>(s: seq<T>, weight: T -> real) {
    forall i, j | 0 <= i < j < |s| :: weight(s[i]) != weight(s[j])
  }

  /** No element goes before another that also goes before it. */
  ghost predicate Asymmetric<T>(s: seq<T>, weight: T -> real) {
    forall i, j | 0 <= i < |s| && 0 <= j < |s| && i != j :: !(NotLess(weight, s[i], s[j]) && NotLess(weight, s[j], s[i]))
  }

  ghost predicate Arranges<T>(p: seq<T>, s: seq<T>, weight: T -> real) {
    multiset(p) == multiset(s) && Descending(p, weight)
  }

  /** Without ties there is one descending arrangement. */
  lemma {:induction false} NoTiesDetermine<T>(p: seq<T>, q: seq<T>, weight: T -> real)
    requires multiset(p) == multiset(q) && NoTies(p, weight) && Descending(p, weight) && Descending(q, weight)
    ensures p == q
    decreases |p|
  {
    hide NoTies, Descending;
    SameLength(p, q);
    if |p| > 0 {
      HeadsMeet(p, q, weight);
      Behead(p, weight);
      Behead(q, weight);
      NoTiesDetermine(p[1..], q[1..], weight);
      Rejoin(p, q);
    }
  }

  lemma SameLength<T>(p: seq<T>, q: seq<T>)
    requires multiset(p) == multiset(q)
    ensures |p| == |q|
  {
    assert |p| == |multiset(p)| && |q| == |multiset(q)|;
  }

  lemma Rejoin<T>(p: seq<T>, q: seq<T>)
    requires |p| > 0 && |q| > 0 && p[0] == q[0] && p[1..] == q[1..]
    ensures p == q
  {
    assert p == [p[0]] + p[1..] && q == [q[0]] + q[1..];
  }

  lemma Behead<T>(p: seq<T>, weight: T -> real)
    requires |p| > 0
    ensures multiset(p[1..]) == multiset(p) - multiset{p[0]}
    ensures NoTies(p, weight) ==> NoTies(p[1..], weight)
    ensures Descending(p, weight) ==> Descending(p[1..], weight)
  {
    assert p == [p[0]] + p[1..];
  }

  /** The heaviest element comes first in either. */
  lemma HeadsMeet<T>(p: seq<T>, q: seq<T>, weight: T -> real)
    requires |p| > 0 && |q| > 0 && multiset(p) == multiset(q)
    requires NoTies(p, weight) && Descending(p, weight) && Descending(q, weight)
    ensures p[0] == q[0]
  {
    assert p[0] in multiset(q) && q[0] in multiset(p);
    var j :| 0 <= j < |q| && q[j] == p[0];
    var i :| 0 <= i < |p| && p[i] == q[0];
  }

  /** With a tie between two different elements there are two. */
  lemma TiesDoNot<T>(p: seq<T>, i: nat, j: nat, weight: T -> real) returns (q: seq<T>)
    requires i < j < |p| && weight(p[i]) == weight(p[j]) && p[i] != p[j] && Descending(p, weight)
    ensures Arranges(q, p, weight) && q != p
  {
    q := p[i := p[j]][j := p[i]];
    assert q[i] != p[i];
  }

  /** `>=` never holds both ways between two elements exactly when no two weigh the same. */
  lemma AsymmetricIffNoTies<T>(s: seq<T>, weight: T -> real)
    ensures Asymmetric(s, weight) <==> NoTies(s, weight)
  {
    if Asymmetric(s, weight) {
      forall i, j | 0 <= i < j < |s| ensures weight(s[i]) != weight(s[j]) {
        assert !(NotLess(weight, s[i], s[j]) && NotLess(weight, s[j], s[i]));
      }
    }
  }

  /** A descending arrangement of different elements is the only one exactly when `>=` never
      holds both ways between two of them. */
  lemma OnlyArrangementIff<T(!new)>(p: seq<T>, weight: T -> real)
    requires Descending(p, weight) && forall i, j | 0 <= i < j < |p| :: p[i] != p[j]
    ensures (forall q | Arranges(q, p, weight) :: q == p) <==> Asymmetric(p, weight)
  {
    hide Asymmetric, Descending;
    AsymmetricIffNoTies(p, weight);
    if NoTies(p, weight) {
      forall q | Arranges(q, p, weight) ensures q == p {
        NoTiesDetermine(p, q, weight);
      }
    } else {
      var i, j :| 0 <= i < j < |p| && weight(p[i]) == weight(p[j]);
      var q := TiesDoNot(p, i, j, weight);
    }
  }
}
