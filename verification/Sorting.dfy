/** std::sort on integers, as a function of the sequence: the ascending permutation of its argument. */
module Sorting {

  predicate Ascending(s: seq<int>) {
    forall i, j :: 0 <= i < j < |s| ==> s[i] <= s[j]
  }

  function Insert(x: int, s: seq<int>): (r: seq<int>)
    requires Ascending(s)
    ensures Ascending(r) && multiset(r) == multiset{x} + multiset(s) && |r| == |s| + 1
  {
    if s == [] || x <= s[0] then
      [x] + s
    else
      assert s == [s[0]] + s[1..];
      var t := Insert(x, s[1..]);
      InsertedIsAbove(s[0], x, s[1..], t);
      [s[0]] + t
  }

  lemma InsertedIsAbove(low: int, x: int, s: seq<int>, t: seq<int>)
    requires low <= x && (forall y :: y in s ==> low <= y) && multiset(t) == multiset{x} + multiset(s)
    ensures forall i :: 0 <= i < |t| ==> low <= t[i]
  {
    forall i | 0 <= i < |t| ensures low <= t[i] {
      assert t[i] in multiset(t);
      assert t[i] == x || t[i] in multiset(s);
      assert t[i] != x ==> t[i] in s;
    }
  }

  function Sort(s: seq<int>): (r: seq<int>)
    ensures Ascending(r) && multiset(r) == multiset(s) && |r| == |s|
  {
    if s == [] then [] else
      assert s == [s[0]] + s[1..];
      Insert(s[0], Sort(s[1..]))
  }

  lemma HeadIsLeast(s: seq<int>, x: int)
    requires Ascending(s) && x in multiset(s)
    ensures s != [] && s[0] <= x
  {
    var i :| 0 <= i < |s| && s[i] == x;
    if i > 0 { assert s[0] <= s[i]; }
  }

  lemma TailMultiset(s: seq<int>)
    requires s != []
    ensures multiset(s[1..]) == multiset(s) - multiset{s[0]}
  {
    assert s == [s[0]] + s[1..];
    assert multiset(s) == multiset{s[0]} + multiset(s[1..]);
  }

  lemma SameHeads(s: seq<int>, t: seq<int>)
    requires s != [] && Ascending(s) && Ascending(t) && multiset(s) == multiset(t)
    ensures t != [] && s[0] == t[0] && multiset(s[1..]) == multiset(t[1..])
  {
    assert s[0] in multiset(s);
    HeadIsLeast(t, s[0]);
    assert t[0] in multiset(t);
    HeadIsLeast(s, t[0]);
    TailMultiset(s);
    TailMultiset(t);
  }

  // Two ascending sequences with the same elements are equal.
  lemma {:induction false} AscendingUnique(s: seq<int>, t: seq<int>)
    requires Ascending(s) && Ascending(t) && multiset(s) == multiset(t)
    ensures s == t
  {
    if s != [] {
      SameHeads(s, t);
      AscendingUnique(s[1..], t[1..]);
      assert s == [s[0]] + s[1..];
    } else {
      assert |t| == |multiset(t)|;
    }
  }

  lemma SortIs(s: seq<int>, t: seq<int>)
    requires Ascending(t) && multiset(s) == multiset(t)
    ensures Sort(s) == t
  {
    AscendingUnique(Sort(s), t);
  }

  predicate IsFour(s: seq<int>, a: int, b: int, c: int, d: int) {
    |s| == 4 && s[0] == a && s[1] == b && s[2] == c && s[3] == d
  }

  lemma RegroupFour(a: int, b: int, c: int, d: int)
    ensures multiset{a, b, c, d} == multiset{a, d} + multiset{b, c}
  {
  }

  lemma FourElements(s: seq<int>, a: int, b: int, c: int, d: int)
    requires IsFour(s, a, b, c, d)
    ensures multiset(s) == multiset{a, d} + multiset{b, c}
  {
    assert s == [a, b, c, d];
    assert multiset(s) == multiset{a, b, c, d};
    RegroupFour(a, b, c, d);
  }

  lemma AscendingFour(s: seq<int>, a: int, b: int, c: int, d: int)
    requires IsFour(s, a, b, c, d) && a <= b <= c <= d
    ensures Ascending(s)
  {
  }

  lemma SortFour(s: seq<int>, a: int, b: int, c: int, d: int, e: int, f: int, g: int, h: int)
    requires IsFour(s, a, b, c, d) && e <= f <= g <= h
    requires multiset{a, d} + multiset{b, c} == multiset{e, h} + multiset{f, g}
    ensures IsFour(Sort(s), e, f, g, h)
  {
    var t := [e, f, g, h];
    FourElements(s, a, b, c, d);
    FourElements(t, e, f, g, h);
    AscendingFour(t, e, f, g, h);
    SortIs(s, t);
  }

  method SortInPlace(a: array<int>)
    modifies a
    ensures a[..] == Sort(old(a[..]))
  {
    var sorted := Sort(a[..]);
    forall i | 0 <= i < a.Length {
      a[i] := sorted[i];
    }
  }

  // ---------------------------------------------------------------- repetitions

  predicate Distinct(s: seq<int>) {
    forall k, l :: 0 <= k < l < |s| ==> s[k] != s[l]
  }

  predicate StrictlyAscending(s: seq<int>) {
    forall k, l :: 0 <= k < l < |s| ==> s[k] < s[l]
  }

  function Members(s: seq<int>): set<int> {
    set x | x in s
  }

  lemma SameMembers(s: seq<int>)
    ensures Members(Sort(s)) == Members(s)
  {
    forall x ensures x in Sort(s) <==> x in s {
      assert x in Sort(s) <==> x in multiset(Sort(s));
      assert x in s <==> x in multiset(s);
    }
  }

  // A list has as many members as entries exactly when nothing repeats.
  lemma {:induction false} DistinctIffFull(s: seq<int>)
    ensures |Members(s)| <= |s|
    ensures Distinct(s) <==> |Members(s)| == |s|
  {
    if s == [] {
      assert Members(s) == {};
    } else {
      var front, last := s[..|s| - 1], s[|s| - 1];
      DistinctIffFull(front);
      assert s == front + [last];
      assert Members(s) == Members(front) + {last};
      if last in front {
        var k :| 0 <= k < |front| && front[k] == last;
        assert s[k] == s[|s| - 1];
        assert Members(s) == Members(front);
      } else {
        DistinctExtends(front, last);
      }
    }
  }

  lemma DistinctExtends(front: seq<int>, last: int)
    requires last !in front
    ensures Distinct(front + [last]) <==> Distinct(front)
  {
    var s := front + [last];
    if Distinct(s) {
      forall k, l | 0 <= k < l < |front| ensures front[k] != front[l] {
        assert s[k] != s[l];
      }
    }
  }

  lemma AscendingDistinct(s: seq<int>)
    requires Ascending(s)
    ensures StrictlyAscending(s) <==> Distinct(s)
  {
  }

  lemma InsertNew(x: int, s: seq<int>)
    requires StrictlyAscending(s) && x !in s
    ensures Ascending(s) && StrictlyAscending(Insert(x, s)) && Members(Insert(x, s)) == Members(s) + {x}
  {
    InsertMembers(x, s);
    DistinctIffFull(s);
    DistinctIffFull(Insert(x, s));
    AscendingDistinct(Insert(x, s));
  }

  lemma InsertMembers(x: int, s: seq<int>)
    requires Ascending(s)
    ensures Members(Insert(x, s)) == Members(s) + {x}
  {
    var t := Insert(x, s);
    forall y ensures y in t <==> y == x || y in s {
      assert y in t <==> y in multiset(t);
      assert y in s <==> y in multiset(s);
    }
  }

  lemma SubsetSize(a: set<int>, b: set<int>)
    requires a <= b
    ensures |a| <= |b|
  {
    assert b == a + (b - a);
  }
}
