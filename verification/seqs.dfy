/** Sequence operations behind `Array.prototype.filter`, `Array.prototype.sort`
    with a numeric comparator, summation loops, and the ordering of database
    rows. */
module Seqs {

  /** `a` can be obtained from `b` by deleting elements, keeping the order. */
  predicate IsSubsequence<T(==)>(a: seq<T>, b: seq<T>)
    decreases |b|
  {
    || a == []
    || (b != [] && ((a[0] == b[0] && IsSubsequence(a[1..], b[1..])) || IsSubsequence(a, b[1..])))
  }

  /** `s.filter(keep)`. */
  function Filter<T>(s: seq<T>, keep: T -> bool): (r: seq<T>)
    ensures |r| <= |s|
    ensures multiset(r) <= multiset(s)
    ensures forall i :: 0 <= i < |r| ==> keep(r[i])
    ensures forall i :: 0 <= i < |s| && keep(s[i]) ==> multiset(r)[s[i]] == multiset(s)[s[i]]
  {
    if s == [] then []
    else
      var rest := Filter(s[1..], keep);
      FilterStep(s, keep, rest);
      if keep(s[0]) then [s[0]] + rest else rest
  }

  /** The inductive step of `Filter`'s contract: from the tail's filter to the
      whole sequence's. */
  lemma FilterStep<T>(s: seq<T>, keep: T -> bool, rest: seq<T>)
    requires s != []
    requires multiset(rest) <= multiset(s[1..])
    requires forall i :: 0 <= i < |rest| ==> keep(rest[i])
    requires forall i :: 0 <= i < |s[1..]| && keep(s[1..][i]) ==> multiset(rest)[s[1..][i]] == multiset(s[1..])[s[1..][i]]
    ensures var r := if keep(s[0]) then [s[0]] + rest else rest;
      && multiset(r) <= multiset(s)
      && (forall i :: 0 <= i < |r| ==> keep(r[i]))
      && (forall i :: 0 <= i < |s| && keep(s[i]) ==> multiset(r)[s[i]] == multiset(s)[s[i]])
  {
    var r := if keep(s[0]) then [s[0]] + rest else rest;
    assert s == [s[0]] + s[1..];
    assert multiset(s) == multiset{s[0]} + multiset(s[1..]);
    forall i | 0 <= i < |s| && keep(s[i]) ensures multiset(r)[s[i]] == multiset(s)[s[i]] {
      if keep(s[0]) {
        if i > 0 {
          assert s[i] == s[1..][i - 1];
        } else if s[0] in s[1..] {
          var j :| 0 <= j < |s[1..]| && s[1..][j] == s[0];
        }
      } else {
        assert s[i] != s[0];
        assert s[i] == s[1..][i - 1];
      }
    }
  }

  /** The filter keeps the surviving elements in their original order. */
  lemma {:induction false} FilterIsSubsequence<T>(s: seq<T>, keep: T -> bool)
    ensures IsSubsequence(Filter(s, keep), s)
  {
    if s != [] {
      FilterIsSubsequence(s[1..], keep);
      var rest := Filter(s[1..], keep);
      if keep(s[0]) {
        assert ([s[0]] + rest)[1..] == rest;
      } else if rest != [] {
        assert IsSubsequence(rest, s[1..]);
      }
    }
  }

  /** Every sequence is a subsequence of itself. */
  lemma {:induction false} SubsequenceReflexive<T>(s: seq<T>)
    ensures IsSubsequence(s, s)
  {
    if s != [] {
      SubsequenceReflexive(s[1..]);
    }
  }

  /** Deleting elements twice is deleting elements once. */
  lemma {:induction false} SubsequenceTransitive<T>(a: seq<T>, b: seq<T>, c: seq<T>)
    requires IsSubsequence(a, b) && IsSubsequence(b, c)
    ensures IsSubsequence(a, c)
    decreases |c|
  {
    if a != [] {
      if IsSubsequence(b, c[1..]) {
        SubsequenceTransitive(a, b, c[1..]);
      } else if a[0] == b[0] && IsSubsequence(a[1..], b[1..]) {
        SubsequenceTransitive(a[1..], b[1..], c[1..]);
      } else {
        SubsequenceTransitive(a, b[1..], c[1..]);
      }
    }
  }

  /** `if (active) s = s.filter(keep)`. */
  function FilterIf<T>(s: seq<T>, active: bool, keep: T -> bool): (r: seq<T>)
    ensures multiset(r) <= multiset(s)
    ensures forall i :: 0 <= i < |r| ==> !active || keep(r[i])
    ensures forall i :: 0 <= i < |s| && (!active || keep(s[i])) ==> multiset(r)[s[i]] == multiset(s)[s[i]]
  {
    if active then Filter(s, keep) else s
  }

  /** The conditional filter keeps the surviving elements in order. */
  lemma FilterIfIsSubsequence<T>(s: seq<T>, active: bool, keep: T -> bool)
    ensures IsSubsequence(FilterIf(s, active, keep), s)
  {
    if active {
      FilterIsSubsequence(s, keep);
    } else {
      SubsequenceReflexive(s);
    }
  }

  /** The sum of a sequence of integers, as a left-to-right accumulation. */
  function Sum(xs: seq<int>): int
  {
    if xs == [] then 0 else Sum(xs[..|xs| - 1]) + xs[|xs| - 1]
  }

  /** Summing a concatenation sums the parts. */
  lemma {:induction false} SumAppend(xs: seq<int>, ys: seq<int>)
    ensures Sum(xs + ys) == Sum(xs) + Sum(ys)
    decreases |ys|
  {
    if ys != [] {
      var zs := xs + ys;
      assert zs[..|zs| - 1] == xs + ys[..|ys| - 1];
      assert zs[|zs| - 1] == ys[|ys| - 1];
      SumAppend(xs, ys[..|ys| - 1]);
      assert Sum(zs) == Sum(xs + ys[..|ys| - 1]) + ys[|ys| - 1];
    } else {
      assert xs + ys == xs;
    }
  }

  /** An element that no other index holds occurs exactly once. */
  lemma OccursOnce<T>(s: seq<T>, i: nat)
    requires i < |s|
    requires forall j :: 0 <= j < |s| && j != i ==> s[j] != s[i]
    ensures multiset(s)[s[i]] == 1
  {
    var x := s[i];
    var a, b := s[..i], s[i + 1..];
    assert s == a + [x] + b;
    assert x !in a by {
      forall j | 0 <= j < |a| ensures a[j] != x {
        assert a[j] == s[j];
      }
    }
    assert x !in b by {
      forall j | 0 <= j < |b| ensures b[j] != x {
        assert b[j] == s[i + 1 + j];
      }
    }
    assert multiset(s) == multiset(a) + multiset{x} + multiset(b);
  }

  // ---------------------------------------------------------------------------
  // Stable sorting by an integer key
  // ---------------------------------------------------------------------------

  /** Non-decreasing in `key`. */
  predicate SortedBy<T>(s: seq<T>, key: T -> int) {
    forall i, j :: 0 <= i < j < |s| ==> key(s[i]) <= key(s[j])
  }

  /** The elements of `s` whose key is `k`, in their order in `s`. Two
      arrangements of the same elements are equally stable when every key
      class appears in the same order in both. */
  function KeyClass<T>(s: seq<T>, key: T -> int, k: int): seq<T>
  {
    if s == [] then []
    else KeyClass(s[..|s| - 1], key, k) + (if key(s[|s| - 1]) == k then [s[|s| - 1]] else [])
  }

  /** Inserts `x` into `s` just after the last element whose key is at most
      `key(x)`: one step of a stable insertion sort. */
  function InsertByKey<T>(s: seq<T>, x: T, key: T -> int): (r: seq<T>)
    ensures multiset(r) == multiset(s) + multiset{x}
    ensures |r| == |s| + 1
  {
    if s == [] || key(s[|s| - 1]) <= key(x) then
      s + [x]
    else
      assert s == s[..|s| - 1] + [s[|s| - 1]];
      InsertByKey(s[..|s| - 1], x, key) + [s[|s| - 1]]
  }

  /** Insertion into a sorted sequence keeps it sorted. */
  lemma {:induction false} InsertSorted<T>(s: seq<T>, x: T, key: T -> int)
    requires SortedBy(s, key)
    ensures SortedBy(InsertByKey(s, x, key), key)
  {
    if s != [] && key(s[|s| - 1]) > key(x) {
      var init := s[..|s| - 1];
      var last := s[|s| - 1];
      InsertSorted(init, x, key);
      var t := InsertByKey(init, x, key);
      forall i | 0 <= i < |t| ensures key(t[i]) <= key(last) {
        assert t[i] in multiset(t);
        if t[i] != x {
          assert t[i] in multiset(init);
          var j :| 0 <= j < |init| && init[j] == t[i];
          assert s[j] == t[i];
        }
      }
    }
  }

  /** Insertion appends `x` to its own key class and leaves every other class
      as it was: the elements it is placed after have keys at most `key(x)`
      and those placed after it have larger keys. */
  lemma {:induction false} InsertKeyClass<T>(s: seq<T>, x: T, key: T -> int, k: int)
    ensures KeyClass(InsertByKey(s, x, key), key, k) == KeyClass(s, key, k) + (if key(x) == k then [x] else [])
  {
    var r := InsertByKey(s, x, key);
    if s == [] || key(s[|s| - 1]) <= key(x) {
      assert r[..|r| - 1] == s;
    } else {
      var init := s[..|s| - 1];
      var last := s[|s| - 1];
      var t := InsertByKey(init, x, key);
      InsertKeyClass(init, x, key, k);
      assert r[..|r| - 1] == t;
      if key(x) == k {
        assert key(last) != k;
        assert KeyClass(init, key, k) + [x] + [] == KeyClass(init, key, k) + [] + [x];
      }
    }
  }

  lemma InsertKeyClasses<T>(s: seq<T>, x: T, key: T -> int)
    ensures forall k :: KeyClass(InsertByKey(s, x, key), key, k) == KeyClass(s, key, k) + (if key(x) == k then [x] else [])
  {
    forall k {
      InsertKeyClass(s, x, key, k);
    }
  }

  /** A stable sort by ascending key: what `a.slice().sort((x, y) => key(x) - key(y))`
      computes, since `Array.prototype.sort` is stable. */
  function SortByKey<T>(s: seq<T>, key: T -> int): (r: seq<T>)
    ensures multiset(r) == multiset(s)
    ensures SortedBy(r, key)
    ensures forall k :: KeyClass(r, key, k) == KeyClass(s, key, k)
  {
    if s == [] then []
    else
      var init := s[..|s| - 1];
      var last := s[|s| - 1];
      assert s == init + [last];
      var t := SortByKey(init, key);
      InsertSorted(t, last, key);
      InsertKeyClasses(t, last, key);
      InsertByKey(t, last, key)
  }

  /** When every element has the same key the stable sort changes nothing. */
  lemma SortByConstantKeyIsIdentity<T>(s: seq<T>, key: T -> int, c: int)
    requires forall i :: 0 <= i < |s| ==> key(s[i]) == c
    ensures SortByKey(s, key) == s
  {
    var r := SortByKey(s, key);
    KeyClassAll(s, key, c);
    KeyClassAll(r, key, c);
  }

  /** If every key is `c`, the class of `c` is the whole sequence. */
  lemma {:induction false} KeyClassAll<T>(s: seq<T>, key: T -> int, c: int)
    requires forall x :: x in multiset(s) ==> key(x) == c
    ensures KeyClass(s, key, c) == s
  {
    if s != [] {
      assert s == s[..|s| - 1] + [s[|s| - 1]];
      assert s[|s| - 1] in multiset(s);
      forall x | x in multiset(s[..|s| - 1]) ensures key(x) == c {
        assert multiset(s) == multiset(s[..|s| - 1]) + multiset{s[|s| - 1]};
      }
      KeyClassAll(s[..|s| - 1], key, c);
    }
  }

  /** The sequence read backwards. */
  function Reverse<T>(s: seq<T>): (r: seq<T>)
    ensures |r| == |s|
    ensures forall i :: 0 <= i < |s| ==> r[i] == s[|s| - 1 - i]
  {
    if s == [] then [] else Reverse(s[1..]) + [s[0]]
  }

  /** The position of an element that occurs in a sequence. */
  function IndexOf<T(==)>(s: seq<T>, x: T): (i: nat)
    requires x in s
    ensures i < |s| && s[i] == x
  {
    if s[0] == x then 0 else 1 + IndexOf(s[1..], x)
  }

  // ---------------------------------------------------------------------------
  // Sets of identifiers listed in ascending order
  // ---------------------------------------------------------------------------

  predicate IsLeast(m: nat, ids: set<nat>) {
    m in ids && forall x :: x in ids ==> m <= x
  }

  /** A non-empty finite set of naturals has a least element. */
  lemma {:induction false} LeastExists(ids: set<nat>)
    requires ids != {}
    ensures exists m :: IsLeast(m, ids)
    decreases |ids|
  {
    var y :| y in ids;
    var rest := ids - {y};
    assert |rest| == |ids| - 1;
    if rest == {} {
      forall x | x in ids ensures y <= x {
        assert x !in rest;
      }
      assert IsLeast(y, ids);
    } else {
      LeastExists(rest);
      var m :| IsLeast(m, rest);
      var w := if y < m then y else m;
      forall x | x in ids ensures w <= x {
        if x != y {
          assert x in rest;
        }
      }
      assert IsLeast(w, ids);
    }
  }

  /** The smallest element of a non-empty set. */
  function Least(ids: set<nat>): (m: nat)
    requires ids != {}
    ensures m in ids && forall x :: x in ids ==> m <= x
  {
    LeastExists(ids);
    var m :| IsLeast(m, ids);
    m
  }

  predicate StrictlyIncreasing(s: seq<nat>) {
    forall i, j :: 0 <= i < j < |s| ==> s[i] < s[j]
  }

  /** The elements of `ids` in descending order, each once. */
  function SortedIdsDescending(ids: set<nat>): (r: seq<nat>)
    ensures forall x :: x in r <==> x in ids
    ensures forall i, j :: 0 <= i < j < |r| ==> r[i] > r[j]
  {
    var asc := SortedIds(ids);
    var r := Reverse(asc);
    forall x | x in asc ensures x in r {
      var k := IndexOf(asc, x);
      assert r[|asc| - 1 - k] == x;
    }
    r
  }

  /** The elements of `ids` in ascending order, each once. */
  function SortedIds(ids: set<nat>): (r: seq<nat>)
    ensures forall x :: x in r <==> x in ids
    ensures StrictlyIncreasing(r)
    ensures |r| == |ids|
    decreases ids
  {
    if ids == {} then []
    else
      var m := Least(ids);
      var rest := SortedIds(ids - {m});
      [m] + rest
  }
}
