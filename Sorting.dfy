/**
 * The orderings the services sort by: a stable sort under a total preorder
 * (List.sort, Stream.sorted with a Comparator), lexicographic order on strings
 * (String.compareTo) and the ascending order of a set of ids.
 */
module Sorting {

  /** le is a total preorder: any two elements compare, and the comparison chains. */
  ghost predicate TotalPreorder<T(!new)>(le: (T, T) -> bool) {
    && (forall a, b :: le(a, b) || le(b, a))
    && (forall a, b, c :: le(a, b) && le(b, c) ==> le(a, c))
  }

  /** Every element is in order with every element after it. */
  predicate SortedBy<T>(s: seq<T>, le: (T, T) -> bool) {
    forall i, j | 0 <= i < j < |s| :: le(s[i], s[j])
  }

  /** Inserts x after the last element not above it, so that x follows every
      element that ties with it. */
  function InsertBy<T>(s: seq<T>, x: T, le: (T, T) -> bool): (r: seq<T>)
    ensures multiset(r) == multiset(s) + multiset{x}
    ensures |r| == |s| + 1
  {
    if s == [] then [x]
    else if le(s[|s| - 1], x) then s + [x]
    else
      var r := InsertBy(s[..|s| - 1], x, le) + [s[|s| - 1]];
      assert s == s[..|s| - 1] + [s[|s| - 1]];
      r
  }

  /** A stable insertion sort: the elements taken in input order, each one
      inserted after the elements that tie with it. */
  function SortBy<T>(xs: seq<T>, le: (T, T) -> bool): (r: seq<T>)
    ensures multiset(r) == multiset(xs)
    ensures |r| == |xs|
  {
    if xs == [] then []
    else
      var r := InsertBy(SortBy(xs[..|xs| - 1], le), xs[|xs| - 1], le);
      assert xs == xs[..|xs| - 1] + [xs[|xs| - 1]];
      r
  }

  lemma {:induction false} InsertBySorted<T(!new)>(s: seq<T>, x: T, le: (T, T) -> bool)
    requires TotalPreorder(le) && SortedBy(s, le)
    ensures SortedBy(InsertBy(s, x, le), le)
    decreases |s|
  {
    if s != [] && !le(s[|s| - 1], x) {
      var s' := s[..|s| - 1];
      var last := s[|s| - 1];
      InsertBySorted(s', x, le);
      var r' := InsertBy(s', x, le);
      forall i | 0 <= i < |r'| ensures le(r'[i], last) {
        assert r'[i] in multiset(r');
        if r'[i] != x {
          assert r'[i] in multiset(s');
          var k :| 0 <= k < |s'| && s'[k] == r'[i];
          assert s[k] == s'[k];
        }
      }
    }
  }

  /** The stable sort orders its output. */
  lemma {:induction false} SortBySorted<T(!new)>(xs: seq<T>, le: (T, T) -> bool)
    requires TotalPreorder(le)
    ensures SortedBy(SortBy(xs, le), le)
    decreases |xs|
  {
    if xs != [] {
      SortBySorted(xs[..|xs| - 1], le);
      InsertBySorted(SortBy(xs[..|xs| - 1], le), xs[|xs| - 1], le);
    }
  }

  /** The last element of the sorted sequence is the input's last element when it
      is not below the previous sorted maximum, and that maximum otherwise: of the
      elements with the greatest key, the one that comes last in the input. */
  lemma LastOfSortBy<T>(xs: seq<T>, le: (T, T) -> bool)
    requires |xs| >= 2
    ensures var prev := SortBy(xs[..|xs| - 1], le);
      var r := SortBy(xs, le);
      r[|r| - 1] == (if le(prev[|prev| - 1], xs[|xs| - 1]) then xs[|xs| - 1] else prev[|prev| - 1])
  {
  }

  /** The elements of s that tie with y under le, in the order of s. */
  function Ties<T>(s: seq<T>, y: T, le: (T, T) -> bool): (r: seq<T>)
    ensures |r| <= |s|
    ensures forall x | x in r :: x in s && le(x, y) && le(y, x)
  {
    if s == [] then []
    else
      var last := s[|s| - 1];
      Ties(s[..|s| - 1], y, le) + (if le(last, y) && le(y, last) then [last] else [])
  }

  /** Picking the ties is done element by element: the ties of a concatenation are
      the ties of its parts. */
  lemma {:induction false} TiesAppend<T>(a: seq<T>, b: seq<T>, y: T, le: (T, T) -> bool)
    ensures Ties(a + b, y, le) == Ties(a, y, le) + Ties(b, y, le)
    decreases |b|
  {
    if b == [] {
      assert a + b == a;
    } else {
      var b' := b[..|b| - 1];
      assert (a + b)[..|a + b| - 1] == a + b';
      assert (a + b)[|a + b| - 1] == b[|b| - 1];
      TiesAppend(a, b', y, le);
    }
  }

  /** The ties of a single element: itself when it ties with y. */
  lemma TiesOne<T>(x: T, y: T, le: (T, T) -> bool)
    ensures Ties([x], y, le) == if le(x, y) && le(y, x) then [x] else []
  {
    assert [x][..0] == [];
  }

  /** An element b placed after a because not le(b, a) cannot tie with the
      same y as a. */
  lemma TieOrder<T(!new)>(a: T, b: T, y: T, le: (T, T) -> bool)
    requires TotalPreorder(le) && !le(b, a)
    ensures Ties([a], y, le) == [] || Ties([b], y, le) == []
  {
    TiesOne(a, y, le);
    TiesOne(b, y, le);
  }

  /** Inserting x puts it after every element that ties with it, so among the
      elements tying with any y it comes last. */
  lemma {:induction false} InsertByTies<T(!new)>(s: seq<T>, x: T, y: T, le: (T, T) -> bool)
    requires TotalPreorder(le)
    ensures Ties(InsertBy(s, x, le), y, le) == Ties(s, y, le) + Ties([x], y, le)
    decreases |s|
  {
    if s == [] {
      assert InsertBy(s, x, le) == [x];
      assert Ties(s, y, le) == [];
    } else if le(s[|s| - 1], x) {
      assert InsertBy(s, x, le) == s + [x];
      TiesAppend(s, [x], y, le);
    } else {
      var s', last := s[..|s| - 1], s[|s| - 1];
      assert s == s' + [last];
      InsertByTies(s', x, y, le);
      TieOrder(x, last, y, le);
      InsertPastTies(s', last, x, y, le);
    }
  }

  /** The step of InsertByTies where x moves in front of the last element. */
  lemma InsertPastTies<T(!new)>(s': seq<T>, last: T, x: T, y: T, le: (T, T) -> bool)
    requires !le(last, x) && (Ties([x], y, le) == [] || Ties([last], y, le) == [])
    requires Ties(InsertBy(s', x, le), y, le) == Ties(s', y, le) + Ties([x], y, le)
    ensures Ties(InsertBy(s' + [last], x, le), y, le) == Ties(s' + [last], y, le) + Ties([x], y, le)
  {
    var s := s' + [last];
    assert s[..|s| - 1] == s' && s[|s| - 1] == last;
    var r' := InsertBy(s', x, le);
    assert InsertBy(s, x, le) == r' + [last];
    TiesAppend(r', [last], y, le);
    TiesAppend(s', [last], y, le);
    SwapWithEmpty(Ties(s', y, le), Ties([x], y, le), Ties([last], y, le));
  }

  lemma SwapWithEmpty<T>(a: seq<T>, b: seq<T>, c: seq<T>)
    requires b == [] || c == []
    ensures a + b + c == a + c + b
  {
    if b == [] {
      assert a + b == a;
    } else {
      assert a + c == a;
    }
  }

  /** SortBy is stable: the elements that tie with any y come out in input order. */
  lemma {:induction false} SortByStable<T(!new)>(xs: seq<T>, y: T, le: (T, T) -> bool)
    requires TotalPreorder(le)
    ensures Ties(SortBy(xs, le), y, le) == Ties(xs, y, le)
    decreases |xs|
  {
    if xs != [] {
      var xs' := xs[..|xs| - 1];
      var x := xs[|xs| - 1];
      assert SortBy(xs, le) == InsertBy(SortBy(xs', le), x, le);
      SortByStable(xs', y, le);
      InsertByTies(SortBy(xs', le), x, y, le);
      assert xs == xs' + [x];
      TiesAppend(xs', [x], y, le);
    }
  }

  /** Strictly ascending ids. */
  predicate Ascending(s: seq<int>) {
    forall i, j | 0 <= i < j < |s| :: s[i] < s[j]
  }

  /** The ties of a strictly ascending sequence of ids are strictly ascending. */
  lemma {:induction false} TiesAscending(s: seq<int>, y: int, le: (int, int) -> bool)
    requires Ascending(s)
    ensures Ascending(Ties(s, y, le))
    decreases |s|
  {
    if s != [] {
      var s' := s[..|s| - 1];
      TiesAscending(s', y, le);
      var r' := Ties(s', y, le);
      forall x | x in r' ensures x < s[|s| - 1] {
        var k :| 0 <= k < |s'| && s'[k] == x;
        assert s[k] == x;
      }
      var r := Ties(s, y, le);
      var last := s[|s| - 1];
      assert r == r' + (if le(last, y) && le(y, last) then [last] else []);
      forall i, j | 0 <= i < j < |r| ensures r[i] < r[j] {
        if j < |r'| {
          assert r[i] == r'[i] && r[j] == r'[j];
          assert r'[i] < r'[j];
        } else {
          assert r[j] == last && r[i] == r'[i];
          assert r'[i] in r';
          assert r'[i] < last;
        }
      }
    }
  }

  // ---------------------------------------------------------------------------
  // String.compareTo

  /** String.compareTo(a, b) <= 0: lexicographic on characters, a proper prefix first. */
  predicate LexLe(a: string, b: string) {
    a == [] || (b != [] && (a[0] < b[0] || (a[0] == b[0] && LexLe(a[1..], b[1..]))))
  }

  lemma {:induction false} LexLeTotal(a: string, b: string)
    ensures LexLe(a, b) || LexLe(b, a)
    decreases |a|
  {
    if a != [] && b != [] && a[0] == b[0] {
      LexLeTotal(a[1..], b[1..]);
    }
  }

  lemma {:induction false} LexLeTrans(a: string, b: string, c: string)
    requires LexLe(a, b) && LexLe(b, c)
    ensures LexLe(a, c)
    decreases |a|
  {
    if a != [] && a[0] == b[0] && b[0] == c[0] {
      LexLeTrans(a[1..], b[1..], c[1..]);
    }
  }

  /** Comparing elements by a string key is a total preorder. */
  lemma ByStringKeyIsTotalPreorder<T(!new)>(key: T -> string)
    ensures TotalPreorder((x: T, y: T) => LexLe(key(x), key(y)))
  {
    forall a: T, b: T {
      LexLeTotal(key(a), key(b));
    }
    forall a: T, b: T, c: T | LexLe(key(a), key(b)) && LexLe(key(b), key(c)) {
      LexLeTrans(key(a), key(b), key(c));
    }
  }

  // ---------------------------------------------------------------------------
  // Sorted ids

  /** Collections.sort on a List<Long>, and Stream.sorted() on ids. */
  function SortInts(xs: seq<int>): (r: seq<int>)
    ensures multiset(r) == multiset(xs)
  {
    SortBy(xs, (a: int, b: int) => a <= b)
  }

  lemma SortIntsSorted(xs: seq<int>)
    ensures forall i, j | 0 <= i < j < |SortInts(xs)| :: SortInts(xs)[i] <= SortInts(xs)[j]
  {
    SortBySorted(xs, (a: int, b: int) => a <= b);
  }

  /** A set other than the empty one has an element. */
  lemma NonEmptyHasElement<T>(s: set<T>) returns (x: T)
    requires s != {}
    ensures x in s
  {
    if forall y :: y !in s {
      assert false;
    }
    x :| x in s;
  }

  predicate IsMinOf(m: int, s: set<int>) {
    m in s && forall x | x in s :: m <= x
  }

  lemma {:induction false} MinExists(s: set<int>)
    requires s != {}
    ensures exists m :: IsMinOf(m, s)
    decreases |s|
  {
    var x := NonEmptyHasElement(s);
    if s != {x} {
      MinExists(s - {x});
      var m :| IsMinOf(m, s - {x});
      var least := if x < m then x else m;
      forall y | y in s ensures least <= y {
        if y != x {
          assert y in s - {x};
        }
      }
      assert IsMinOf(least, s);
    } else {
      assert IsMinOf(x, s);
    }
  }

  /** The smallest element of a non-empty finite set. */
  function MinOf(s: set<int>): (m: int)
    requires s != {}
    ensures m in s && forall x | x in s :: m <= x
  {
    MinExists(s);
    var m :| IsMinOf(m, s);
    m
  }

  /** The elements of a set of ids in ascending order, each once. */
  function SortedElements(s: set<int>): (r: seq<int>)
    ensures forall i, j | 0 <= i < j < |r| :: r[i] < r[j]
    ensures forall x :: x in s <==> x in r
    ensures |r| == |s|
    decreases |s|
  {
    if s == {} then []
    else
      var m := MinOf(s);
      [m] + SortedElements(s - {m})
  }
}
