/**
 Stable sorting, as both standard libraries provide it, and the fact that makes an
 order independent of how its input was arranged: distinct keys sort only one way.
 */
module Sorting {

  ghost predicate TotalPreorder<T(!new)>(le: (T, T) -> bool) {
    && (forall a, b :: le(a, b) || le(b, a))
    && (forall a, b, c :: le(a, b) && le(b, c) ==> le(a, c))
  }

  ghost predicate Sorted<T>(le: (T, T) -> bool, s: seq<T>) {
    forall i, j :: 0 <= i < j < |s| ==> le(s[i], s[j])
  }

  function Insert<T>(le: (T, T) -> bool, x: T, s: seq<T>): (r: seq<T>)
    ensures multiset(r) == multiset([x]) + multiset(s)
  {
    if s == [] || le(x, s[0]) then [x] + s
    else
      assert s == [s[0]] + s[1..];
      [s[0]] + Insert(le, x, s[1..])
  }

  function Sort<T>(le: (T, T) -> bool, s: seq<T>): (r: seq<T>)
    ensures multiset(r) == multiset(s)
  {
    if s == [] then [] else
    assert s == [s[0]] + s[1..];
    Insert(le, s[0], Sort(le, s[1..]))
  }

  lemma Pick<T>(s: set<T>) returns (x: T)
    requires s != {}
    ensures x in s
  {
    x :| x in s;
  }

  lemma SameMembers<T>(a: seq<T>, b: seq<T>)
    requires multiset(a) == multiset(b)
    ensures |a| == |b|
    ensures forall x :: x in a <==> x in b
  {
    assert |multiset(a)| == |multiset(b)|;
    forall x ensures x in a <==> x in b {
      assert x in a <==> x in multiset(a);
      assert x in b <==> x in multiset(b);
    }
  }

  lemma RepeatsCount<T>(s: seq<T>, i: nat, j: nat)
    requires i < j < |s| && s[i] == s[j]
    ensures multiset(s)[s[i]] >= 2
  {
    assert s == s[..j] + s[j..] && s[j..] == [s[j]] + s[j + 1..];
    assert s[..j][i] == s[i] && s[i] in multiset(s[..j]);
  }

  lemma {:induction false} OnceEach<T>(s: seq<T>, x: T)
    requires forall i, j :: 0 <= i < j < |s| ==> s[i] != s[j]
    ensures multiset(s)[x] <= 1
  {
    if s == [] {
    } else {
      OnceEach(s[1..], x);
      assert s == [s[0]] + s[1..];
      assert s[0] !in s[1..];
    }
  }

  lemma {:induction false} InsertKeepsSorted<T(!new)>(le: (T, T) -> bool, x: T, s: seq<T>)
    requires TotalPreorder(le) && Sorted(le, s)
    ensures Sorted(le, Insert(le, x, s))
  {
    if s != [] && !le(x, s[0]) {
      InsertKeepsSorted(le, x, s[1..]);
      var tail := Insert(le, x, s[1..]);
      SameMembers(tail, [x] + s[1..]);
      forall y | y in tail ensures le(s[0], y) {
        if y in s[1..] {
          var j :| 0 <= j < |s[1..]| && s[1..][j] == y;
          assert s[j + 1] == y;
        }
      }
    } else if s != [] {
      forall j | 0 <= j < |s| ensures le(x, s[j]) {
        assert j > 0 ==> le(s[0], s[j]);
      }
    }
  }

  lemma {:induction false} SortSorts<T(!new)>(le: (T, T) -> bool, s: seq<T>)
    requires TotalPreorder(le)
    ensures Sorted(le, Sort(le, s))
  {
    if s == [] {
    } else {
      SortSorts(le, s[1..]);
      InsertKeepsSorted(le, s[0], Sort(le, s[1..]));
    }
  }

  /** No two members of `s` tie unless they are equal. */
  ghost predicate NoTies<T>(le: (T, T) -> bool, s: seq<T>) {
    forall a, b :: a in s && b in s && le(a, b) && le(b, a) ==> a == b
  }

  lemma SameHead<T(!new)>(le: (T, T) -> bool, a: seq<T>, b: seq<T>)
    requires TotalPreorder(le) && a != [] && b != []
    requires Sorted(le, a) && Sorted(le, b) && multiset(a) == multiset(b) && NoTies(le, a)
    ensures a[0] == b[0]
  {
    SameMembers(a, b);
    assert a[0] in b && b[0] in a;
    var i :| 0 <= i < |b| && b[i] == a[0];
    var j :| 0 <= j < |a| && a[j] == b[0];
    assert le(b[0], b[0]);
    assert le(b[0], a[0]) && le(a[0], b[0]);
  }

  lemma SameTails<T>(a: seq<T>, b: seq<T>)
    requires a != [] && b != [] && a[0] == b[0] && multiset(a) == multiset(b)
    ensures multiset(a[1..]) == multiset(b[1..])
  {
    assert a == [a[0]] + a[1..] && b == [b[0]] + b[1..];
    assert multiset(a[1..]) == multiset(a) - multiset([a[0]]);
    assert multiset(b[1..]) == multiset(b) - multiset([b[0]]);
  }

  lemma {:induction false} SortedUnique<T(!new)>(le: (T, T) -> bool, a: seq<T>, b: seq<T>)
    requires TotalPreorder(le)
    requires Sorted(le, a) && Sorted(le, b) && multiset(a) == multiset(b) && NoTies(le, a)
    ensures a == b
  {
    SameMembers(a, b);
    if a == [] {
    } else {
      SameHead(le, a, b);
      SameTails(a, b);
      assert forall x :: x in a[1..] ==> x in a;
      SortedUnique(le, a[1..], b[1..]);
      assert a == [a[0]] + a[1..] && b == [b[0]] + b[1..];
    }
  }

  /** Sorting forgets how the input was arranged. */
  lemma SortIgnoresOrder<T(!new)>(le: (T, T) -> bool, a: seq<T>, b: seq<T>)
    requires TotalPreorder(le) && multiset(a) == multiset(b) && NoTies(le, a)
    ensures Sort(le, a) == Sort(le, b)
  {
    SortSorts(le, a);
    SortSorts(le, b);
    SameMembers(a, Sort(le, a));
    SortedUnique(le, Sort(le, a), Sort(le, b));
  }

  /** A sequence in strictly ascending order is what sorting any arrangement of it gives. */
  lemma SortRecovers<T(!new)>(le: (T, T) -> bool, s: seq<T>, shuffled: seq<T>)
    requires TotalPreorder(le) && Sorted(le, s) && NoTies(le, s)
    requires multiset(shuffled) == multiset(s)
    ensures Sort(le, shuffled) == s
  {
    SortSorts(le, shuffled);
    SortedUnique(le, s, Sort(le, shuffled));
  }

  // -------------------------------------------------- sorting and selecting

  function Where<T>(keep: T -> bool, s: seq<T>): seq<T> {
    if s == [] then [] else (if keep(s[0]) then [s[0]] else []) + Where(keep, s[1..])
  }

  lemma {:induction false} WhereMembers<T>(keep: T -> bool, s: seq<T>)
    ensures forall x :: x in Where(keep, s) <==> x in s && keep(x)
  {
    if s == [] {
    } else {
      WhereMembers(keep, s[1..]);
      assert s == [s[0]] + s[1..];
    }
  }

  lemma WhereCons<T>(keep: T -> bool, x: T, s: seq<T>)
    ensures Where(keep, [x] + s) == (if keep(x) then [x] else []) + Where(keep, s)
  {
    assert ([x] + s)[1..] == s;
  }

  lemma {:induction false} WhereConcat<T>(keep: T -> bool, a: seq<T>, b: seq<T>)
    ensures Where(keep, a + b) == Where(keep, a) + Where(keep, b)
  {
    if a == [] {
      assert a + b == b;
    } else {
      hide *;
      var x, rest := a[0], a[1..];
      WhereConcat(keep, rest, b);
      WhereCons(keep, x, rest);
      WhereCons(keep, x, rest + b);
      assert a == [x] + rest && a + b == [x] + (rest + b);
      assert [] + Where(keep, rest) == Where(keep, rest);
      assert [] + Where(keep, rest + b) == Where(keep, rest + b);
    }
  }

  lemma BelowHeadBelowAll<T(!new)>(le: (T, T) -> bool, x: T, s: seq<T>)
    requires TotalPreorder(le) && Sorted(le, s) && s != [] && le(x, s[0])
    ensures forall y :: y in s ==> le(x, y)
  {
    forall y | y in s ensures le(x, y) {
      var j :| 0 <= j < |s| && s[j] == y;
      assert j > 0 ==> le(s[0], s[j]);
    }
  }

  lemma SortedTail<T>(le: (T, T) -> bool, s: seq<T>)
    requires Sorted(le, s) && s != []
    ensures Sorted(le, s[1..])
  {
  }

  lemma {:induction false} InsertWhere<T(!new)>(le: (T, T) -> bool, keep: T -> bool, x: T, s: seq<T>)
    requires TotalPreorder(le) && Sorted(le, s)
    ensures Where(keep, Insert(le, x, s)) == if keep(x) then Insert(le, x, Where(keep, s)) else Where(keep, s)
  {
    hide TotalPreorder, Sorted;
    if s == [] || le(x, s[0]) {
      assert Insert(le, x, s) == [x] + s;
      WhereCons(keep, x, s);
      WhereMembers(keep, s);
      if Where(keep, s) != [] {
        BelowHeadBelowAll(le, x, s);
        assert Where(keep, s)[0] in s;
      }
    } else {
      var head, rest := s[0], s[1..];
      assert s == [head] + rest;
      SortedTail(le, s);
      InsertWhere(le, keep, x, rest);
      InsertWherePast(le, keep, x, head, rest);
    }
  }

  lemma InsertWherePast<T>(le: (T, T) -> bool, keep: T -> bool, x: T, head: T, s: seq<T>)
    requires !le(x, head)
    requires Where(keep, Insert(le, x, s)) == if keep(x) then Insert(le, x, Where(keep, s)) else Where(keep, s)
    ensures Where(keep, Insert(le, x, [head] + s)) ==
            if keep(x) then Insert(le, x, Where(keep, [head] + s)) else Where(keep, [head] + s)
  {
    hide *;
    var kept := Where(keep, s);
    InsertPast(le, x, head, s);
    InsertPast(le, x, head, kept);
    WhereCons(keep, head, s);
    WhereCons(keep, head, Insert(le, x, s));
    assert [] + kept == kept;
    assert [] + Insert(le, x, kept) == Insert(le, x, kept);
  }

  lemma InsertPast<T>(le: (T, T) -> bool, x: T, head: T, s: seq<T>)
    requires !le(x, head)
    ensures Insert(le, x, [head] + s) == [head] + Insert(le, x, s)
  {
    assert ([head] + s)[1..] == s;
  }

  lemma SortCons<T>(le: (T, T) -> bool, x: T, s: seq<T>)
    ensures Sort(le, [x] + s) == Insert(le, x, Sort(le, s))
  {
    assert ([x] + s)[1..] == s;
  }

  /** Selecting before sorting or after gives the same list, ties and all. */
  lemma {:induction false} SortWhere<T(!new)>(le: (T, T) -> bool, keep: T -> bool, s: seq<T>)
    requires TotalPreorder(le)
    ensures Sort(le, Where(keep, s)) == Where(keep, Sort(le, s))
  {
    if s == [] {
      assert Where(keep, s) == [];
    } else {
      hide *;
      var x, rest := s[0], s[1..];
      assert s == [x] + rest;
      SortWhere(le, keep, rest);
      SortSorts(le, rest);
      InsertWhere(le, keep, x, Sort(le, rest));
      SortCons(le, x, rest);
      WhereCons(keep, x, rest);
      SortCons(le, x, Where(keep, rest));
      assert [] + Where(keep, rest) == Where(keep, rest);
    }
  }
}
