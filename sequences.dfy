/** Generic sequence operations that the attendance code relies on:
    `Array.prototype.filter`, the first-occurrence order of a JavaScript
    `Set` (or of an object's string keys), and the stable
    `Array.prototype.sort` with a descending numeric comparator. */
module Sequences {

  predicate NoDuplicates<T(==)>(s: seq<T>) {
    forall i, j :: 0 <= i < j < |s| ==> s[i] != s[j]
  }

  // ---------------------------------------------------------------- filter

  /** `s.filter(p)`: the elements that satisfy `p`, in their original order. */
  function Filter<T(!new)>(s: seq<T>, p: T -> bool): (r: seq<T>)
    ensures |r| <= |s|
    ensures forall x :: x in r <==> x in s && p(x)
  {
    if s == [] then []
    else Filter(s[..|s| - 1], p) + (if p(s[|s| - 1]) then [s[|s| - 1]] else [])
  }

  lemma FilterSingleton<T(!new)>(x: T, p: T -> bool)
    ensures Filter([x], p) == if p(x) then [x] else []
  {
    assert [x][..0] == [];
  }

  lemma SplitLast<T>(a: seq<T>, b: seq<T>)
    requires b != []
    ensures b == b[..|b| - 1] + [b[|b| - 1]]
    ensures a + b == (a + b[..|b| - 1]) + [b[|b| - 1]]
  {
  }

  lemma TakeSnoc<T>(s: seq<T>, i: nat)
    requires i < |s|
    ensures s[..i + 1] == s[..i] + [s[i]]
  {
  }

  lemma AppendAssoc<T>(x: seq<T>, y: seq<T>, z: seq<T>)
    ensures (x + y) + z == x + (y + z)
  {
  }

  lemma FilterSnoc<T(!new)>(s: seq<T>, x: T, p: T -> bool)
    ensures Filter(s + [x], p) == Filter(s, p) + (if p(x) then [x] else [])
  {
    assert (s + [x])[..|s|] == s;
  }

  /** Filtering distributes over concatenation, so it keeps relative order. */
  lemma {:induction false} FilterAppend<T(!new)>(a: seq<T>, b: seq<T>, p: T -> bool)
    ensures Filter(a + b, p) == Filter(a, p) + Filter(b, p)
    decreases |b|
  {
    if b == [] {
      assert a + b == a;
    } else {
      var b', y := b[..|b| - 1], b[|b| - 1];
      SplitLast(a, b);
      FilterAppend(a, b', p);
      FilterSnoc(a + b', y, p);
      FilterSnoc(b', y, p);
      AppendAssoc(Filter(a, p), Filter(b', p), if p(y) then [y] else []);
    }
  }

  /** Each element occurs in the filtered sequence exactly as often as in the
      input when it satisfies `p`, and not at all otherwise. */
  lemma {:induction false} FilterCount<T(!new)>(s: seq<T>, p: T -> bool, x: T)
    ensures multiset(Filter(s, p))[x] == if p(x) then multiset(s)[x] else 0
  {
    if s != [] {
      var s' := s[..|s| - 1];
      FilterCount(s', p, x);
      assert s == s' + [s[|s| - 1]];
    }
  }

  /** Filtering two permutations of each other gives permutations of each other. */
  lemma FilterPermutation<T(!new)>(s: seq<T>, t: seq<T>, p: T -> bool)
    requires multiset(s) == multiset(t)
    ensures multiset(Filter(s, p)) == multiset(Filter(t, p))
  {
    forall x ensures multiset(Filter(s, p))[x] == multiset(Filter(t, p))[x] {
      FilterCount(s, p, x);
      FilterCount(t, p, x);
    }
  }

  lemma {:induction false} FilterNoDuplicates<T(!new)>(s: seq<T>, p: T -> bool)
    requires NoDuplicates(s)
    ensures NoDuplicates(Filter(s, p))
  {
    if s != [] {
      var s', x := s[..|s| - 1], s[|s| - 1];
      assert NoDuplicates(s');
      FilterNoDuplicates(s', p);
      assert x !in s';
    }
  }

  /** A filter that nothing in `s` passes is empty. */
  lemma FilterNone<T(!new)>(s: seq<T>, p: T -> bool)
    requires forall x :: x in s ==> !p(x)
    ensures Filter(s, p) == []
  {
    if Filter(s, p) != [] {
      assert Filter(s, p)[0] in Filter(s, p);
    }
  }

  /** Two filters can be applied in either order. */
  lemma {:induction false} FilterCommutes<T(!new)>(s: seq<T>, p: T -> bool, q: T -> bool)
    ensures Filter(Filter(s, p), q) == Filter(Filter(s, q), p)
  {
    if s != [] {
      var s', x := s[..|s| - 1], s[|s| - 1];
      FilterCommutes(s', p, q);
      FilterAppend(Filter(s', p), if p(x) then [x] else [], q);
      FilterAppend(Filter(s', q), if q(x) then [x] else [], p);
      FilterSingleton(x, p);
      FilterSingleton(x, q);
    }
  }

  // -------------------------------------------------------- duplicates

  lemma {:induction false} NoDuplicatesCount<T>(s: seq<T>, x: T)
    requires NoDuplicates(s)
    ensures multiset(s)[x] <= 1
  {
    if s != [] {
      assert s == [s[0]] + s[1..];
      assert NoDuplicates(s[1..]);
      NoDuplicatesCount(s[1..], x);
      assert s[0] !in s[1..];
    }
  }

  lemma CountNoDuplicates<T>(s: seq<T>)
    requires forall x :: multiset(s)[x] <= 1
    ensures NoDuplicates(s)
  {
    forall i, j | 0 <= i < j < |s| ensures s[i] != s[j] {
      assert s == s[..j] + s[j..];
      assert s[i] in multiset(s[..j]);
      assert s[j] in multiset(s[j..]);
      assert multiset(s)[s[j]] == multiset(s[..j])[s[j]] + multiset(s[j..])[s[j]];
    }
  }

  /** A permutation of a duplicate-free sequence is duplicate-free. */
  lemma PermutationNoDuplicates<T>(s: seq<T>, t: seq<T>)
    requires multiset(s) == multiset(t) && NoDuplicates(s)
    ensures NoDuplicates(t)
  {
    forall x ensures multiset(t)[x] <= 1 {
      NoDuplicatesCount(s, x);
    }
    CountNoDuplicates(t);
  }

  /** Permutations of each other have the same members. */
  lemma PermutationMembers<T>(s: seq<T>, t: seq<T>)
    requires multiset(s) == multiset(t)
    ensures forall x :: x in s <==> x in t
  {
    forall x ensures x in s <==> x in t {
      assert x in s <==> x in multiset(s);
      assert x in t <==> x in multiset(t);
    }
  }

  // ---------------------------------------------------------- distinct

  /** The distinct elements of `s` in order of first occurrence, as
      `Array.from(new Set(s))` or the keys of an object filled from `s`. */
  function Distinct<T(==,!new)>(s: seq<T>): (r: seq<T>)
    ensures NoDuplicates(r)
    ensures forall x :: x in r <==> x in s
  {
    if s == [] then []
    else
      var prefix, x := Distinct(s[..|s| - 1]), s[|s| - 1];
      if x in s[..|s| - 1] then prefix else prefix + [x]
  }

  /** Appending an element adds it to the distinct elements when it is new. */
  lemma DistinctAppend<T(!new)>(s: seq<T>, x: T)
    ensures Distinct(s + [x]) == if x in s then Distinct(s) else Distinct(s) + [x]
  {
    assert (s + [x])[..|s|] == s;
  }

  // -------------------------------------------------------------- sort

  /** Non-increasing by `key`: the order `sort((a, b) => key(b) - key(a))` yields. */
  predicate SortedDesc<T>(s: seq<T>, key: T -> int) {
    forall i, j :: 0 <= i < j < |s| ==> key(s[i]) >= key(s[j])
  }

  /** Every element of `rest`, a permutation of `x` and the tail of `s`, is
      bounded by the head of `s` when `x` is. */
  lemma InsertBelowHead<T>(x: T, s: seq<T>, rest: seq<T>, key: T -> int)
    requires SortedDesc(s, key) && s != [] && key(x) < key(s[0])
    requires multiset(rest) == multiset{x} + multiset(s[1..])
    ensures forall j :: 0 <= j < |rest| ==> key(rest[j]) <= key(s[0])
  {
    forall j | 0 <= j < |rest| ensures key(rest[j]) <= key(s[0]) {
      assert rest[j] in multiset(rest);
      if rest[j] != x {
        assert rest[j] in multiset(s[1..]);
        var k :| 0 <= k < |s[1..]| && s[1..][k] == rest[j];
        assert s[k + 1] == rest[j];
      }
    }
  }

  lemma ConsSorted<T>(h: T, rest: seq<T>, key: T -> int)
    requires SortedDesc(rest, key)
    requires forall j :: 0 <= j < |rest| ==> key(rest[j]) <= key(h)
    ensures SortedDesc([h] + rest, key)
  {
    var r := [h] + rest;
    forall i, j | 0 <= i < j < |r| ensures key(r[i]) >= key(r[j]) {
      assert r[j] == rest[j - 1];
      if i > 0 {
        assert r[i] == rest[i - 1];
      }
    }
  }

  /** Inserts `x` in front of the first element whose key is not larger. */
  function Insert<T>(x: T, s: seq<T>, key: T -> int): (r: seq<T>)
    requires SortedDesc(s, key)
    ensures SortedDesc(r, key)
    ensures multiset(r) == multiset{x} + multiset(s)
  {
    if s == [] || key(s[0]) <= key(x) then [x] + s
    else
      var rest := Insert(x, s[1..], key);
      assert s == [s[0]] + s[1..];
      InsertBelowHead(x, s, rest, key);
      ConsSorted(s[0], rest, key);
      [s[0]] + rest
  }

  /** The stable descending sort of `s` by `key`, as `Array.prototype.sort`
      computes it (stable since ECMAScript 2019). */
  function SortDesc<T>(s: seq<T>, key: T -> int): (r: seq<T>)
    ensures SortedDesc(r, key)
    ensures multiset(r) == multiset(s)
  {
    if s == [] then []
    else
      assert s == [s[0]] + s[1..];
      Insert(s[0], SortDesc(s[1..], key), key)
  }

  function HasKey<T>(key: T -> int, v: int): T -> bool {
    y => key(y) == v
  }

  lemma {:induction false} InsertStable<T(!new)>(x: T, s: seq<T>, key: T -> int, v: int)
    requires SortedDesc(s, key)
    ensures Filter(Insert(x, s, key), HasKey(key, v))
         == Filter([x], HasKey(key, v)) + Filter(s, HasKey(key, v))
  {
    var p := HasKey(key, v);
    if s == [] || key(s[0]) <= key(x) {
      FilterAppend([x], s, p);
    } else {
      var h, tl := s[0], s[1..];
      var rest := Insert(x, tl, key);
      assert Insert(x, s, key) == [h] + rest;
      assert s == [h] + tl;
      InsertStable(x, tl, key, v);
      FilterAppend([h], rest, p);
      FilterAppend([h], tl, p);
      FilterSingleton(x, p);
      FilterSingleton(h, p);
      SwapEmpty(Filter([h], p), Filter([x], p), Filter(tl, p));
    }
  }

  lemma SwapEmpty<T>(a: seq<T>, b: seq<T>, c: seq<T>)
    requires a == [] || b == []
    ensures a + (b + c) == b + (a + c)
  {
    if a == [] {
      assert a + (b + c) == b + c;
      assert a + c == c;
    } else {
      assert b + c == c;
      assert b + (a + c) == a + c;
    }
  }

  /** Stability: the elements that share one key keep their input order. */
  lemma {:induction false} SortDescStable<T(!new)>(s: seq<T>, key: T -> int, v: int)
    ensures Filter(SortDesc(s, key), HasKey(key, v)) == Filter(s, HasKey(key, v))
  {
    if s != [] {
      SortDescStable(s[1..], key, v);
      InsertStable(s[0], SortDesc(s[1..], key), key, v);
      assert s == [s[0]] + s[1..];
      FilterAppend([s[0]], s[1..], HasKey(key, v));
    }
  }

  /** Filtering a list sorted in non-increasing key order keeps it sorted. */
  lemma {:induction false} FilterSortedDesc<T(!new)>(s: seq<T>, key: T -> int, p: T -> bool)
    requires SortedDesc(s, key)
    ensures SortedDesc(Filter(s, p), key)
  {
    if s != [] {
      var s', x := s[..|s| - 1], s[|s| - 1];
      FilterSortedDesc(s', key, p);
      forall y | y in Filter(s', p) ensures key(y) >= key(x) {
        var m :| 0 <= m < |s'| && s'[m] == y;
        assert s[m] == y;
      }
    }
  }
}
