/** The ordering setData puts the tags in: ascending by title under Java's
    String.compareTo, by a stable sort (Collections.sort). */
module Titles {
  import opened Items

  /** String.compareTo: the difference of the first pair of characters that
      differ, or else the difference of the lengths. */
  function CompareTo(a: string, b: string): int
  {
    if a == [] || b == [] then |a| - |b|
    else if a[0] != b[0] then a[0] as int - b[0] as int
    else CompareTo(a[1..], b[1..])
  }

  lemma {:induction false} CompareToAntisymmetric(a: string, b: string)
    ensures CompareTo(a, b) == -CompareTo(b, a)
  {
    if a != [] && b != [] && a[0] == b[0] {
      CompareToAntisymmetric(a[1..], b[1..]);
    }
  }

  lemma {:induction false} CompareToZeroIffEqual(a: string, b: string)
    ensures CompareTo(a, b) == 0 <==> a == b
  {
    if a != [] && b != [] && a[0] == b[0] {
      CompareToZeroIffEqual(a[1..], b[1..]);
      assert a == [a[0]] + a[1..] && b == [b[0]] + b[1..];
    }
  }

  /** A title that is a prefix of another compares below it by the
      difference of their lengths. */
  lemma {:induction false} CompareToPrefix(a: string, b: string)
    requires |a| <= |b| && a == b[..|a|]
    ensures CompareTo(a, b) == |a| - |b|
  {
    if a != [] {
      assert a[1..] == b[1..][..|a| - 1];
      CompareToPrefix(a[1..], b[1..]);
    }
  }

  /** The comparator is transitive, so together with antisymmetry it is the
      total preorder that Collections.sort requires of it. */
  lemma {:induction false} CompareToTransitive(a: string, b: string, c: string)
    requires CompareTo(a, b) <= 0 && CompareTo(b, c) <= 0
    ensures CompareTo(a, c) <= 0
  {
    if a != [] && b != [] && c != [] && a[0] == b[0] == c[0] {
      CompareToTransitive(a[1..], b[1..], c[1..]);
    }
  }

  ghost predicate Sorted<T>(s: seq<Item<T>>)
  {
    forall i, j :: 0 <= i < j < |s| ==> CompareTo(s[i].title, s[j].title) <= 0
  }

  /** Inserts `x` in front of the first element whose title is not below its
      own, so that `x` stays ahead of the equal titles that followed it. */
  function Insert<T>(x: Item<T>, s: seq<Item<T>>): (r: seq<Item<T>>)
    ensures multiset(r) == multiset(s) + multiset{x}
  {
    if s == [] || CompareTo(x.title, s[0].title) <= 0 then
      [x] + s
    else
      assert s == [s[0]] + s[1..];
      [s[0]] + Insert(x, s[1..])
  }

  lemma SortedCons<T>(y: Item<T>, t: seq<Item<T>>)
    requires Sorted(t)
    requires forall j :: 0 <= j < |t| ==> CompareTo(y.title, t[j].title) <= 0
    ensures Sorted([y] + t)
  {
    var r := [y] + t;
    forall i, j | 0 <= i < j < |r|
      ensures CompareTo(r[i].title, r[j].title) <= 0
    {
      assert r[j] == t[j - 1];
      if i > 0 {
        assert r[i] == t[i - 1];
      }
    }
  }

  lemma {:induction false} InsertSorted<T>(x: Item<T>, s: seq<Item<T>>)
    requires Sorted(s)
    ensures Sorted(Insert(x, s))
  {
    if s == [] {
    } else if CompareTo(x.title, s[0].title) <= 0 {
      forall j | 0 <= j < |s|
        ensures CompareTo(x.title, s[j].title) <= 0
      {
        if j > 0 {
          CompareToTransitive(x.title, s[0].title, s[j].title);
        }
      }
      SortedCons(x, s);
    } else {
      CompareToAntisymmetric(x.title, s[0].title);
      var rest := Insert(x, s[1..]);
      InsertSorted(x, s[1..]);
      assert s == [s[0]] + s[1..];
      forall j | 0 <= j < |rest|
        ensures CompareTo(s[0].title, rest[j].title) <= 0
      {
        assert rest[j] in multiset(rest);
        if rest[j] != x {
          assert rest[j] in multiset(s[1..]);
          var k :| 0 <= k < |s[1..]| && s[1..][k] == rest[j];
          assert s[k + 1] == rest[j];
        }
      }
      SortedCons(s[0], rest);
    }
  }

  /** Collections.sort with the title comparator: a stable sort. */
  function SortByTitle<T>(s: seq<Item<T>>): (r: seq<Item<T>>)
    ensures Sorted(r)
    ensures multiset(r) == multiset(s)
    ensures |r| == |s|
  {
    if s == [] then []
    else
      assert s == [s[0]] + s[1..];
      InsertSorted(s[0], SortByTitle(s[1..]));
      Insert(s[0], SortByTitle(s[1..]))
  }

  /** The titles of the items, in order. */
  function TitlesOf<T>(s: seq<Item<T>>): seq<string>
  {
    if s == [] then [] else [s[0].title] + TitlesOf(s[1..])
  }

  lemma {:induction false} InsertKeepsTitles<T>(x: Item<T>, s: seq<Item<T>>)
    ensures multiset(TitlesOf(Insert(x, s))) == multiset(TitlesOf(s)) + multiset{x.title}
  {
    if s == [] || CompareTo(x.title, s[0].title) <= 0 {
      assert ([x] + s)[1..] == s;
    } else {
      InsertKeepsTitles(x, s[1..]);
      assert ([s[0]] + Insert(x, s[1..]))[1..] == Insert(x, s[1..]);
    }
  }

  /** Sorting moves the titles around and neither adds nor drops one. */
  lemma {:induction false} SortKeepsTitles<T>(s: seq<Item<T>>)
    ensures multiset(TitlesOf(SortByTitle(s))) == multiset(TitlesOf(s))
  {
    if s != [] {
      SortKeepsTitles(s[1..]);
      InsertKeepsTitles(s[0], SortByTitle(s[1..]));
    }
  }

  /** The items of `s` whose title is `t`, in their order in `s`. */
  function WithTitle<T>(s: seq<Item<T>>, t: string): seq<Item<T>>
  {
    if s == [] then []
    else (if s[0].title == t then [s[0]] else []) + WithTitle(s[1..], t)
  }

  /** Insert passes only over items whose title differs from x's, so among the
      items titled t it puts x first, and leaves the others in their order. */
  lemma {:induction false} InsertWithTitle<T>(x: Item<T>, s: seq<Item<T>>, t: string)
    ensures WithTitle(Insert(x, s), t) == (if x.title == t then [x] else []) + WithTitle(s, t)
  {
    var hx := if x.title == t then [x] else [];
    if s == [] || CompareTo(x.title, s[0].title) <= 0 {
      var q := [x] + s;
      assert Insert(x, s) == q;
      assert q[0] == x && q[1..] == s;
      assert WithTitle(q, t) == hx + WithTitle(s, t);
    } else {
      var r := Insert(x, s[1..]);
      var h0 := if s[0].title == t then [s[0]] else [];
      assert Insert(x, s) == [s[0]] + r;
      assert ([s[0]] + r)[1..] == r;
      assert WithTitle(Insert(x, s), t) == h0 + WithTitle(r, t);
      InsertWithTitle(x, s[1..], t);
      assert WithTitle(s, t) == h0 + WithTitle(s[1..], t);
      CompareToZeroIffEqual(x.title, s[0].title);
      var w := WithTitle(s[1..], t);
      if x.title == t {
        assert h0 == [] && WithTitle(Insert(x, s), t) == WithTitle(r, t) == hx + w;
        assert WithTitle(s, t) == w;
      } else {
        assert hx == [] && WithTitle(r, t) == w;
        assert WithTitle(Insert(x, s), t) == h0 + w == WithTitle(s, t);
      }
    }
  }

  /** The sort is stable: items with equal titles keep their relative order. */
  lemma {:induction false} SortIsStable<T>(s: seq<Item<T>>, t: string)
    ensures WithTitle(SortByTitle(s), t) == WithTitle(s, t)
  {
    if s != [] {
      SortIsStable(s[1..], t);
      InsertWithTitle(s[0], SortByTitle(s[1..]), t);
    }
  }
}
