/**
 The contract of Python's `sorted`: the result is ordered, and elements with
 equal keys keep the order they came in.  `SortIsTheOnlyOne` shows that these two
 facts leave no choice, so every caller of `sorted` in the program can be read as
 a call of `Sort`.
 */
module Sorting {

  ghost predicate TotalPreorder<T(!new)>(le: (T, T) -> bool) {
    && (forall a, b :: le(a, b) || le(b, a))
    && (forall a, b, c :: le(a, b) && le(b, c) ==> le(a, c))
  }

  ghost predicate Sorted<T>(s: seq<T>, le: (T, T) -> bool) {
    forall i, j :: 0 <= i < j < |s| ==> le(s[i], s[j])
  }

  predicate Tied<T>(a: T, b: T, le: (T, T) -> bool) {
    le(a, b) && le(b, a)
  }

  /** The elements of `s` that tie with `k`, in the order they occur. */
  function TiedWith<T>(s: seq<T>, k: T, le: (T, T) -> bool): seq<T> {
    if s == [] then []
    else (if Tied(s[0], k, le) then [s[0]] else []) + TiedWith(s[1..], k, le)
  }

  function Insert<T>(x: T, s: seq<T>, le: (T, T) -> bool): seq<T> {
    if s == [] then [x]
    else if le(x, s[0]) then [x] + s
    else [s[0]] + Insert(x, s[1..], le)
  }

  function Sort<T>(s: seq<T>, le: (T, T) -> bool): seq<T> {
    if s == [] then [] else Insert(s[0], Sort(s[1..], le), le)
  }

  lemma {:induction false} InsertPermutes<T>(x: T, s: seq<T>, le: (T, T) -> bool)
    ensures multiset(Insert(x, s, le)) == multiset(s) + multiset{x}
    ensures |Insert(x, s, le)| == |s| + 1
  {
    if s != [] {
      assert s == [s[0]] + s[1..];
      if !le(x, s[0]) {
        InsertPermutes(x, s[1..], le);
      }
    }
  }

  lemma {:induction false} SortPermutes<T>(s: seq<T>, le: (T, T) -> bool)
    ensures multiset(Sort(s, le)) == multiset(s)
    ensures |Sort(s, le)| == |s|
  {
    if s != [] {
      assert s == [s[0]] + s[1..];
      SortPermutes(s[1..], le);
      InsertPermutes(s[0], Sort(s[1..], le), le);
    }
  }

  lemma SortMembers<T>(s: seq<T>, le: (T, T) -> bool)
    ensures forall x :: x in Sort(s, le) <==> x in s
  {
    SortPermutes(s, le);
    forall x
      ensures x in Sort(s, le) <==> x in s
    {
      assert x in Sort(s, le) <==> x in multiset(Sort(s, le));
      assert x in s <==> x in multiset(s);
    }
  }

  lemma {:induction false} InsertSorts<T(!new)>(x: T, s: seq<T>, le: (T, T) -> bool)
    requires TotalPreorder(le) && Sorted(s, le)
    ensures Sorted(Insert(x, s, le), le)
  {
    if s != [] && !le(x, s[0]) {
      InsertSorts(x, s[1..], le);
      InsertPermutes(x, s[1..], le);
      var t := Insert(x, s[1..], le);
      forall j | 0 <= j < |t|
        ensures le(s[0], t[j])
      {
        assert t[j] in multiset(t);
        assert t[j] == x || t[j] in s[1..];
      }
    }
  }

  lemma {:induction false} SortSorts<T(!new)>(s: seq<T>, le: (T, T) -> bool)
    requires TotalPreorder(le)
    ensures Sorted(Sort(s, le), le)
  {
    if s != [] {
      SortSorts(s[1..], le);
      InsertSorts(s[0], Sort(s[1..], le), le);
    }
  }

  function IfTied<T>(x: T, k: T, le: (T, T) -> bool): seq<T> {
    if Tied(x, k, le) then [x] else []
  }

  lemma TiedCons<T(!new)>(x: T, s: seq<T>, k: T, le: (T, T) -> bool)
    ensures TiedWith([x] + s, k, le) == IfTied(x, k, le) + TiedWith(s, k, le)
  {
    assert ([x] + s)[1..] == s;
  }

  /** Two elements of which at most one is tied change places. */
  lemma TiedSwap<T(!new)>(x: T, y: T, s: seq<T>, k: T, le: (T, T) -> bool)
    requires !(Tied(x, k, le) && Tied(y, k, le))
    ensures TiedWith([y] + ([x] + s), k, le) == TiedWith([x] + ([y] + s), k, le)
  {
    TiedCons(x, s, k, le);
    TiedCons(y, s, k, le);
    TiedCons(y, [x] + s, k, le);
    TiedCons(x, [y] + s, k, le);
  }

  lemma {:induction false} InsertMovesTiesNowhere<T(!new)>(x: T, s: seq<T>, k: T, le: (T, T) -> bool)
    requires forall i :: 0 <= i < |s| && Tied(x, k, le) && Tied(s[i], k, le) ==> le(x, s[i])
    ensures TiedWith(Insert(x, s, le), k, le) == TiedWith([x] + s, k, le)
  {
    if s != [] && !le(x, s[0]) {
      var y, rest := s[0], s[1..];
      InsertMovesTiesNowhere(x, rest, k, le);
      TiedCons(y, Insert(x, rest, le), k, le);
      TiedCons(y, [x] + rest, k, le);
      TiedSwap(x, y, rest, k, le);
      assert s == [y] + rest;
    }
  }

  lemma InsertKeepsTies<T(!new)>(x: T, s: seq<T>, k: T, le: (T, T) -> bool)
    requires TotalPreorder(le)
    ensures TiedWith(Insert(x, s, le), k, le) == TiedWith([x] + s, k, le)
  {
    InsertMovesTiesNowhere(x, s, k, le);
  }

  /** Elements with equal keys keep their order. */
  lemma {:induction false} SortKeepsTies<T(!new)>(s: seq<T>, k: T, le: (T, T) -> bool)
    requires TotalPreorder(le)
    ensures TiedWith(Sort(s, le), k, le) == TiedWith(s, k, le)
  {
    if s != [] {
      SortKeepsTies(s[1..], k, le);
      InsertKeepsTies(s[0], Sort(s[1..], le), k, le);
      assert ([s[0]] + Sort(s[1..], le))[1..] == Sort(s[1..], le);
    }
  }

  /** `x` occurs before `y`. */
  ghost predicate Before<T(!new)>(s: seq<T>, x: T, y: T) {
    exists i, j :: 0 <= i < j < |s| && s[i] == x && s[j] == y
  }

  lemma BeforeCons<T(!new)>(a: T, s: seq<T>, x: T, y: T)
    ensures Before(s, x, y) ==> Before([a] + s, x, y)
    ensures y in s ==> Before([a] + s, a, y)
  {
    var t := [a] + s;
    if Before(s, x, y) {
      var i, j :| 0 <= i < j < |s| && s[i] == x && s[j] == y;
      assert t[i + 1] == x && t[j + 1] == y;
    }
    if y in s {
      var j :| 0 <= j < |s| && s[j] == y;
      assert t[0] == a && t[j + 1] == y;
    }
  }

  lemma {:induction false} InsertKeepsBefore<T(!new)>(a: T, s: seq<T>, x: T, y: T, le: (T, T) -> bool)
    requires Before(s, x, y)
    ensures Before(Insert(a, s, le), x, y)
  {
    var i, j :| 0 <= i < j < |s| && s[i] == x && s[j] == y;
    if le(a, s[0]) {
      BeforeCons(a, s, x, y);
    } else {
      var rest := s[1..];
      assert rest[j - 1] == y;
      if i > 0 {
        assert rest[i - 1] == x;
        InsertKeepsBefore(a, rest, x, y, le);
      } else {
        InsertPermutes(a, rest, le);
        assert y in multiset(Insert(a, rest, le));
      }
      BeforeCons(s[0], Insert(a, rest, le), x, y);
    }
  }

  lemma {:induction false} InsertedBefore<T(!new)>(a: T, s: seq<T>, y: T, le: (T, T) -> bool)
    requires y in s && le(a, y)
    ensures Before(Insert(a, s, le), a, y)
  {
    if le(a, s[0]) {
      BeforeCons(a, s, a, y);
    } else {
      var j :| 0 <= j < |s| && s[j] == y;
      assert s[1..][j - 1] == y;
      InsertedBefore(a, s[1..], y, le);
      BeforeCons(s[0], Insert(a, s[1..], le), a, y);
    }
  }

  /** An element stays before a later one that it does not have to follow. */
  lemma {:induction false} SortKeepsBefore<T(!new)>(s: seq<T>, x: T, y: T, le: (T, T) -> bool)
    requires Before(s, x, y) && le(x, y)
    ensures Before(Sort(s, le), x, y)
  {
    var i, j :| 0 <= i < j < |s| && s[i] == x && s[j] == y;
    var rest := s[1..];
    assert rest[j - 1] == y;
    if i > 0 {
      assert rest[i - 1] == x;
      SortKeepsBefore(rest, x, y, le);
      InsertKeepsBefore(s[0], Sort(rest, le), x, y, le);
    } else {
      SortMembers(rest, le);
      InsertedBefore(x, Sort(rest, le), y, le);
    }
  }

  lemma {:induction false} TiedWithMember<T>(s: seq<T>, k: T, le: (T, T) -> bool, x: T)
    ensures x in TiedWith(s, k, le) <==> x in s && Tied(x, k, le)
  {
    if s != [] {
      TiedWithMember(s[1..], k, le, x);
      assert s == [s[0]] + s[1..];
    }
  }

  lemma {:induction false} SortedFromTies<T(!new)>(a: seq<T>, b: seq<T>, le: (T, T) -> bool)
    requires TotalPreorder(le) && Sorted(a, le) && Sorted(b, le)
    requires forall k :: TiedWith(a, k, le) == TiedWith(b, k, le)
    ensures a == b
    decreases |a|
  {
    if a == [] {
    } else {
      TiedWithMember(a, a[0], le, a[0]);
      var x := TiedWith(b, a[0], le)[0];
      TiedWithMember(b, a[0], le, x);
      assert b != [] && Tied(b[0], b[0], le);
      TiedWithMember(b, b[0], le, b[0]);
      var y := TiedWith(a, b[0], le)[0];
      TiedWithMember(a, b[0], le, y);
      assert le(b[0], x) && le(a[0], y);
      assert Tied(a[0], b[0], le);
      assert TiedWith(a, a[0], le)[0] == a[0];
      assert TiedWith(b, a[0], le)[0] == b[0];
      forall k
        ensures TiedWith(a[1..], k, le) == TiedWith(b[1..], k, le)
      {
        var h := if Tied(a[0], k, le) then [a[0]] else [];
        assert TiedWith(a, k, le) == h + TiedWith(a[1..], k, le);
        assert TiedWith(b, k, le) == h + TiedWith(b[1..], k, le);
        assert TiedWith(a[1..], k, le) == TiedWith(a, k, le)[|h|..];
      }
      SortedFromTies(a[1..], b[1..], le);
      assert a == [a[0]] + a[1..] && b == [b[0]] + b[1..];
    }
  }

  /** Ordered and stable determine the result: there is one sorted list. */
  lemma SortIsTheOnlyOne<T(!new)>(s: seq<T>, t: seq<T>, le: (T, T) -> bool)
    requires TotalPreorder(le) && Sorted(t, le)
    requires forall k :: TiedWith(t, k, le) == TiedWith(s, k, le)
    ensures t == Sort(s, le)
  {
    SortSorts(s, le);
    forall k ensures TiedWith(t, k, le) == TiedWith(Sort(s, le), k, le) {
      SortKeepsTies(s, k, le);
    }
    SortedFromTies(t, Sort(s, le), le);
  }

  /** Ties between unequal elements are the only way the input order shows. */
  lemma SortForgetsOrder<T(!new)>(a: seq<T>, b: seq<T>, le: (T, T) -> bool)
    requires TotalPreorder(le)
    requires multiset(a) == multiset(b)
    requires forall x, y :: x in a && y in a && Tied(x, y, le) ==> x == y
    ensures Sort(a, le) == Sort(b, le)
  {
    SortSorts(a, le);
    SortSorts(b, le);
    SortPermutes(a, le);
    SortPermutes(b, le);
    SortMembers(a, le);
    assert TiesAreEqual(Sort(a, le), le);
    SortedPermutationsAgree(Sort(a, le), Sort(b, le), le);
  }

  lemma SortedHeadsTie<T(!new)>(a: seq<T>, b: seq<T>, le: (T, T) -> bool)
    requires TotalPreorder(le) && Sorted(a, le) && Sorted(b, le)
    requires a != [] && b != [] && a[0] in b && b[0] in a
    ensures Tied(a[0], b[0], le)
  {
    var i :| 0 <= i < |b| && b[i] == a[0];
    var j :| 0 <= j < |a| && a[j] == b[0];
    assert le(a[0], a[0]) && le(b[0], b[0]);
  }

  lemma TailsPermute<T>(a: seq<T>, b: seq<T>)
    requires a != [] && b != [] && a[0] == b[0]
    requires multiset(a) == multiset(b)
    ensures multiset(a[1..]) == multiset(b[1..])
  {
    assert a == [a[0]] + a[1..] && b == [b[0]] + b[1..];
    assert multiset(a[1..]) == multiset(a) - multiset{a[0]};
  }

  ghost predicate TiesAreEqual<T>(a: seq<T>, le: (T, T) -> bool) {
    forall i, j :: 0 <= i < |a| && 0 <= j < |a| && Tied(a[i], a[j], le) ==> a[i] == a[j]
  }

  lemma {:induction false} SortedPermutationsAgree<T(!new)>(a: seq<T>, b: seq<T>, le: (T, T) -> bool)
    requires TotalPreorder(le) && Sorted(a, le) && Sorted(b, le)
    requires multiset(a) == multiset(b)
    requires TiesAreEqual(a, le)
    ensures a == b
    decreases |a|
  {
    assert |multiset(a)| == |a| && |multiset(b)| == |b|;
    if a != [] {
      assert a[0] in multiset(b) && b[0] in multiset(a);
      SortedHeadsTie(a, b, le);
      TailsPermute(a, b);
      SortedPermutationsAgree(a[1..], b[1..], le);
      assert a == [a[0]] + a[1..] && b == [b[0]] + b[1..];
    }
  }
}
