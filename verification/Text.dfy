/** Character strings: trimming, the order Python compares them in, and sets of them listed in that order. */
module Text {
  import opened Sorting

  predicate LexLe(a: string, b: string) {
    a == [] || (b != [] && (a[0] < b[0] || (a[0] == b[0] && LexLe(a[1..], b[1..]))))
  }

  lemma {:induction false} LexTotal(a: string, b: string)
    ensures LexLe(a, b) || LexLe(b, a)
    ensures LexLe(a, b) && LexLe(b, a) ==> a == b
  {
    if a != [] && b != [] && a[0] == b[0] {
      LexTotal(a[1..], b[1..]);
      assert a == [a[0]] + a[1..] && b == [b[0]] + b[1..];
    }
  }

  lemma {:induction false} LexTransitive(a: string, b: string, c: string)
    requires LexLe(a, b) && LexLe(b, c)
    ensures LexLe(a, c)
  {
    if a != [] && a[0] == b[0] && b[0] == c[0] {
      LexTransitive(a[1..], b[1..], c[1..]);
    }
  }

  /** At the first position where the strings differ, the first has the smaller character. */
  ghost predicate FirstDiffersBelow(a: string, b: string) {
    exists k :: 0 <= k < |a| && k < |b| && a[k] < b[k] && a[..k] == b[..k]
  }

  /** `a` is a beginning of `b`, or smaller where they first differ. */
  lemma {:induction false} LexMeans(a: string, b: string)
    ensures LexLe(a, b) <==> a <= b || FirstDiffersBelow(a, b)
  {
    if a != [] && b != [] {
      if a[0] == b[0] {
        LexMeans(a[1..], b[1..]);
        assert a == [a[0]] + a[1..] && b == [b[0]] + b[1..];
        DifferInRest(a, b);
      } else {
        DifferAtOnce(a, b);
      }
    }
  }

  lemma DifferAtOnce(a: string, b: string)
    requires a != [] && b != [] && a[0] != b[0]
    ensures FirstDiffersBelow(a, b) <==> a[0] < b[0]
  {
    assert a[..0] == b[..0];
    forall k | 0 < k <= |a| && k <= |b|
      ensures a[..k] != b[..k]
    {
      assert a[..k][0] != b[..k][0];
    }
  }

  lemma DifferInRest(a: string, b: string)
    requires a != [] && b != [] && a[0] == b[0]
    ensures FirstDiffersBelow(a, b) <==> FirstDiffersBelow(a[1..], b[1..])
  {
    if k :| 0 <= k < |a| && k < |b| && a[k] < b[k] && a[..k] == b[..k] {
      DifferLater(a, b, k);
    }
    var s, t := a[1..], b[1..];
    if k :| 0 <= k < |s| && k < |t| && s[k] < t[k] && s[..k] == t[..k] {
      DifferLater(a, b, k + 1);
    }
  }

  lemma DifferLater(a: string, b: string, k: nat)
    requires 0 < k < |a| && k < |b| && a[0] == b[0]
    ensures a[..k] == b[..k] <==> a[1..][..k - 1] == b[1..][..k - 1]
  {
    assert a[..k] == [a[0]] + a[1..][..k - 1] && b[..k] == [b[0]] + b[1..][..k - 1];
    assert a[1..][..k - 1] == a[..k][1..] && b[1..][..k - 1] == b[..k][1..];
  }

  lemma LexOrder()
    ensures TotalPreorder(LexLe)
    ensures forall a: string, b: string :: Tied(a, b, LexLe) ==> a == b
  {
    forall a: string, b: string
      ensures (LexLe(a, b) || LexLe(b, a)) && (LexLe(a, b) && LexLe(b, a) ==> a == b)
    {
      LexTotal(a, b);
    }
    forall a: string, b: string, c: string | LexLe(a, b) && LexLe(b, c)
      ensures LexLe(a, c)
    {
      LexTransitive(a, b, c);
    }
  }

  /** ASCII white space, as `str.strip` removes it. */
  predicate IsSpace(c: char) {
    c == ' ' || '\t' <= c <= '\r' || (28 <= c as int <= 31)
  }

  function Strip(s: string): string {
    if s == [] then []
    else if IsSpace(s[0]) then Strip(s[1..])
    else if IsSpace(s[|s| - 1]) then Strip(s[..|s| - 1])
    else s
  }

  predicate AllSpaces(s: string) {
    forall i :: 0 <= i < |s| ==> IsSpace(s[i])
  }

  lemma SpaceInFront(c: char, front: string, rest: string)
    requires IsSpace(c) && AllSpaces(front)
    ensures [c] + (front + rest) == ([c] + front) + rest && AllSpaces([c] + front)
  {
  }

  lemma SpaceAtTheEnd(front: string, rest: string, back: string, c: char)
    requires IsSpace(c) && AllSpaces(back)
    ensures (front + (rest + back)) + [c] == front + (rest + (back + [c])) && AllSpaces(back + [c])
  {
  }

  /** What is removed at both ends is white space, and the rest, if any, begins and ends with something else. */
  lemma {:induction false} StripTrims(s: string) returns (front: string, back: string)
    ensures s == front + (Strip(s) + back) && AllSpaces(front) && AllSpaces(back)
    ensures Strip(s) != "" ==> !IsSpace(Strip(s)[0]) && !IsSpace(Strip(s)[|Strip(s)| - 1])
    decreases |s|
  {
    if s == [] {
      front, back := [], [];
    } else if IsSpace(s[0]) {
      var f, b := StripTrims(s[1..]);
      front, back := [s[0]] + f, b;
      hide AllSpaces, IsSpace;
      assert s == [s[0]] + s[1..];
      SpaceInFront(s[0], f, Strip(s[1..]) + b);
    } else if IsSpace(s[|s| - 1]) {
      var t := s[..|s| - 1];
      var f, b := StripTrims(t);
      front, back := f, b + [s[|s| - 1]];
      hide AllSpaces, IsSpace;
      assert s == t + [s[|s| - 1]];
      SpaceAtTheEnd(f, Strip(t), b, s[|s| - 1]);
    } else {
      front, back := [], [];
    }
  }

  /** Nothing is left exactly of white space. */
  lemma StripsToNothing(s: string)
    ensures Strip(s) == "" <==> AllSpaces(s)
  {
    var front, back := StripTrims(s);
    if Strip(s) != "" {
      assert s[|front|] == Strip(s)[0];
    }
  }

  /** Some listing of a finite set, without repetition. */
  ghost function Listing(s: set<string>): seq<string> {
    if s == {} then [] else
      var x :| x in s;
      [x] + Listing(s - {x})
  }

  lemma {:induction false} ListingIsTheSet(s: set<string>)
    ensures multiset(Listing(s)) == multiset(s)
    ensures |Listing(s)| == |s|
  {
    if s != {} {
      var x :| x in s && Listing(s) == [x] + Listing(s - {x});
      ListingIsTheSet(s - {x});
      assert multiset(s) == multiset(s - {x}) + multiset{x};
    }
  }

  /** `sorted(s)` for a set of strings. */
  ghost function SortSet(s: set<string>): seq<string> {
    Sort(Listing(s), LexLe)
  }

  lemma SortSetMembers(s: set<string>)
    ensures multiset(SortSet(s)) == multiset(s)
    ensures |SortSet(s)| == |s|
    ensures forall x :: x in SortSet(s) <==> x in s
  {
    ListingIsTheSet(s);
    SortPermutes(Listing(s), LexLe);
    forall x
      ensures x in SortSet(s) <==> x in s
    {
      assert x in SortSet(s) <==> x in multiset(SortSet(s));
    }
  }

  /** However the set is enumerated, sorting gives the same list. */
  lemma SortSetFromListing(s: set<string>, t: seq<string>)
    requires multiset(t) == multiset(s)
    ensures Sort(t, LexLe) == SortSet(s)
  {
    LexOrder();
    ListingIsTheSet(s);
    forall x, y | x in t && y in t && Tied(x, y, LexLe)
      ensures x == y
    {
      LexTotal(x, y);
    }
    SortForgetsOrder(t, Listing(s), LexLe);
  }

  method SortedList(s: set<string>) returns (r: seq<string>)
    ensures r == SortSet(s)
  {
    var t: seq<string> := [];
    var left := s;
    while left != {}
      invariant left <= s
      invariant multiset(t) + multiset(left) == multiset(s)
      decreases |left|
    {
      var x :| x in left;
      assert multiset(left) == multiset(left - {x}) + multiset{x};
      t := t + [x];
      left := left - {x};
    }
    SortSetFromListing(s, t);
    r := Sort(t, LexLe);
  }
}
