// Sort-then-number, over any strict order: what ORDER BY and row_number() compute when the
// order leaves no ties.
module Sorting {
  import opened Prelude

  ghost predicate StrictOrder<T(!new)>(lt: (T, T) -> bool) {
    && (forall x :: !lt(x, x))
    && (forall x, y, z :: lt(x, y) && lt(y, z) ==> lt(x, z))
  }

  // No two positions of s are tied.
  ghost predicate NoTies<T>(lt: (T, T) -> bool, s: seq<T>) {
    forall i, j :: 0 <= i < j < |s| ==> lt(s[i], s[j]) || lt(s[j], s[i])
  }

  ghost predicate Sorted<T>(lt: (T, T) -> bool, s: seq<T>) {
    forall i, j :: 0 <= i < j < |s| ==> lt(s[i], s[j])
  }

  function Insert<T>(lt: (T, T) -> bool, x: T, s: seq<T>): (r: seq<T>)
    ensures multiset(r) == multiset(s) + multiset{x}
    ensures |r| == |s| + 1
  {
    if s == [] then [x]
    else if lt(x, Last(s)) then
      assert multiset(s) == multiset(Init(s)) + multiset{Last(s)} by { assert s == Init(s) + [Last(s)]; }
      Insert(lt, x, Init(s)) + [Last(s)]
    else s + [x]
  }

  function Sort<T>(lt: (T, T) -> bool, s: seq<T>): (r: seq<T>)
    ensures multiset(r) == multiset(s)
    ensures |r| == |s|
  {
    if s == [] then [] else
      assert s == Init(s) + [Last(s)];
      Insert(lt, Last(s), Sort(lt, Init(s)))
  }

  lemma {:induction false} InsertKeepsSorted<T(!new)>(lt: (T, T) -> bool, x: T, s: seq<T>)
    requires StrictOrder(lt) && Sorted(lt, s)
    requires forall y :: y in s ==> lt(x, y) || lt(y, x)
    ensures Sorted(lt, Insert(lt, x, s))
  {
    if s != [] && lt(x, Last(s)) {
      InsertKeepsSorted(lt, x, Init(s));
      var front := Insert(lt, x, Init(s));
      forall i | 0 <= i < |front|
        ensures lt(front[i], Last(s))
      {
        assert front[i] in multiset(front);
        assert front[i] == x || front[i] in Init(s);
      }
    } else if s != [] {
      assert lt(Last(s), x);
    }
  }

  lemma SortKeepsElements<T(!new)>(lt: (T, T) -> bool, s: seq<T>)
    ensures forall x :: x in Sort(lt, s) <==> x in s
  {
    forall x
      ensures x in Sort(lt, s) <==> x in s
    {
      assert x in multiset(Sort(lt, s)) <==> x in multiset(s);
    }
  }

  lemma {:induction false} SortSorts<T(!new)>(lt: (T, T) -> bool, s: seq<T>)
    requires StrictOrder(lt) && NoTies(lt, s)
    ensures Sorted(lt, Sort(lt, s))
    ensures forall x :: x in Sort(lt, s) <==> x in s
  {
    SortKeepsElements(lt, s);
    if s != [] {
      SortSorts(lt, Init(s));
      forall y | y in Sort(lt, Init(s))
        ensures lt(Last(s), y) || lt(y, Last(s))
      {
        var i :| 0 <= i < |s| - 1 && s[i] == y;
        assert lt(s[i], s[|s| - 1]) || lt(s[|s| - 1], s[i]);
      }
      InsertKeepsSorted(lt, Last(s), Sort(lt, Init(s)));
    }
  }

  lemma LastIsGreatest<T(!new)>(lt: (T, T) -> bool, s: seq<T>, x: T)
    requires Sorted(lt, s) && x in s
    ensures x == Last(s) || lt(x, Last(s))
  {
    var i :| 0 <= i < |s| && s[i] == x;
    assert i < |s| - 1 ==> lt(s[i], s[|s| - 1]);
  }

  lemma FirstIsLeast<T(!new)>(lt: (T, T) -> bool, s: seq<T>, x: T)
    requires Sorted(lt, s) && x in s
    ensures x == s[0] || lt(s[0], x)
  {
    var i :| 0 <= i < |s| && s[i] == x;
    assert i > 0 ==> lt(s[0], s[i]);
  }

  lemma InitBag<T>(s: seq<T>)
    requires s != []
    ensures multiset(Init(s)) == multiset(s) - multiset{Last(s)}
    ensures Last(s) in multiset(s) && s == Init(s) + [Last(s)]
  {
    assert s == Init(s) + [Last(s)];
  }

  lemma LastsAgree<T(!new)>(lt: (T, T) -> bool, a: seq<T>, b: seq<T>)
    requires StrictOrder(lt) && Sorted(lt, a) && Sorted(lt, b)
    requires a != [] && b != [] && multiset(a) == multiset(b)
    ensures Last(a) == Last(b)
  {
    assert Last(a) in multiset(b) && Last(b) in multiset(a) by {
      InitBag(a);
      InitBag(b);
    }
    LastIsGreatest(lt, a, Last(b));
    LastIsGreatest(lt, b, Last(a));
  }

  lemma InitsAgree<T>(a: seq<T>, b: seq<T>)
    requires a != [] && b != [] && multiset(a) == multiset(b) && Last(a) == Last(b)
    ensures multiset(Init(a)) == multiset(Init(b))
    ensures Init(a) == Init(b) ==> a == b
  {
    InitBag(a);
    InitBag(b);
  }

  // A bag has one sorted enumeration.
  lemma {:induction false} SortedIsUnique<T(!new)>(lt: (T, T) -> bool, a: seq<T>, b: seq<T>)
    requires StrictOrder(lt) && Sorted(lt, a) && Sorted(lt, b)
    requires multiset(a) == multiset(b)
    ensures a == b
  {
    if a == [] || b == [] {
      assert |multiset(a)| == |a| && |multiset(b)| == |b|;
    } else {
      LastsAgree(lt, a, b);
      InitsAgree(a, b);
      SortedIsUnique(lt, Init(a), Init(b));
    }
  }

  // Whatever order the rows arrive in, they sort alike.
  lemma SortIgnoresArrival<T(!new)>(lt: (T, T) -> bool, a: seq<T>, b: seq<T>)
    requires StrictOrder(lt) && NoTies(lt, a) && NoTies(lt, b)
    requires multiset(a) == multiset(b)
    ensures Sort(lt, a) == Sort(lt, b)
  {
    SortSorts(lt, a);
    SortSorts(lt, b);
    SortedIsUnique(lt, Sort(lt, a), Sort(lt, b));
  }

  // The elements of s strictly before x.
  function Before<T(==)>(lt: (T, T) -> bool, s: seq<T>, x: T): set<T> {
    set y | y in s && lt(y, x)
  }

  // In a sorted sequence the position of an element counts the elements before it.
  lemma {:induction false} PositionCounts<T(!new)>(lt: (T, T) -> bool, s: seq<T>, i: nat)
    requires StrictOrder(lt) && Sorted(lt, s) && i < |s|
    ensures |Before(lt, s, s[i])| == i
  {
    if i == 0 {
      assert Before(lt, s, s[0]) == {} by {
        forall y | y in s
          ensures !lt(y, s[0])
        {
          var j :| 0 <= j < |s| && s[j] == y;
          NotBackwards(lt, s, 0, j);
        }
      }
    } else {
      PositionCounts(lt, s, i - 1);
      assert Before(lt, s, s[i]) == Before(lt, s, s[i - 1]) + {s[i - 1]} by {
        forall y | y in s
          ensures lt(y, s[i]) <==> lt(y, s[i - 1]) || y == s[i - 1]
        {
          var j :| 0 <= j < |s| && s[j] == y;
          NotBackwards(lt, s, i, j);
          NotBackwards(lt, s, i - 1, j);
        }
      }
    }
  }

  lemma NotBackwards<T(!new)>(lt: (T, T) -> bool, s: seq<T>, i: nat, j: nat)
    requires StrictOrder(lt) && Sorted(lt, s) && i < |s| && j < |s|
    ensures lt(s[j], s[i]) <==> j < i
    ensures s[j] == s[i] <==> j == i
  {
  }
}
