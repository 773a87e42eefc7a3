/** Orders and the library routines that depend on them: byte-lexicographic comparison,
    sorting, and binary search with the contract the standard library documents. */
module Ordering {
  import opened Basics

  function Min(a: nat, b: nat): nat {
    if a <= b then a else b
  }

  // ------------------------------------------------------------------------
  // Lexicographic order on sequences (digests, hex strings, key strings)
  // ------------------------------------------------------------------------

  predicate LexLess(a: seq<int>, b: seq<int>)
    decreases |a|
  {
    b != [] && (a == [] || a[0] < b[0] || (a[0] == b[0] && LexLess(a[1..], b[1..])))
  }

  predicate LexLeq(a: seq<int>, b: seq<int>) {
    a == b || LexLess(a, b)
  }

  lemma {:induction false} LexIrreflexive(a: seq<int>)
    ensures !LexLess(a, a)
  {
    if a != [] {
      LexIrreflexive(a[1..]);
    }
  }

  lemma {:induction false} LexTransitive(a: seq<int>, b: seq<int>, c: seq<int>)
    requires LexLess(a, b) && LexLess(b, c)
    ensures LexLess(a, c)
    decreases |a|
  {
    if a != [] && a[0] == b[0] == c[0] {
      LexTransitive(a[1..], b[1..], c[1..]);
    }
  }

  lemma {:induction false} LexTrichotomy(a: seq<int>, b: seq<int>)
    ensures a == b || LexLess(a, b) || LexLess(b, a)
    decreases |a|
  {
    if a != [] && b != [] && a[0] == b[0] {
      LexTrichotomy(a[1..], b[1..]);
      assert a == [a[0]] + a[1..] && b == [b[0]] + b[1..];
    }
  }

  lemma LexAsymmetric(a: seq<int>, b: seq<int>)
    requires LexLess(a, b)
    ensures !LexLess(b, a) && a != b
  {
    LexIrreflexive(a);
    if LexLess(b, a) {
      LexTransitive(a, b, a);
    }
  }

  lemma LexOrder(a: seq<int>, b: seq<int>, c: seq<int>)
    ensures LexLeq(a, b) || LexLeq(b, a)
    ensures LexLeq(a, b) && LexLeq(b, c) ==> LexLeq(a, c)
    ensures LexLeq(a, b) && LexLeq(b, a) ==> a == b
  {
    LexTrichotomy(a, b);
    if LexLess(a, b) && LexLess(b, c) {
      LexTransitive(a, b, c);
    }
    if LexLess(a, b) {
      LexAsymmetric(a, b);
    }
  }

  /** Code points. The source compares bytes, which is the same: `JsonText.CodesOrderIsUtf8Order`. */
  function Codes(s: string): (c: seq<int>)
    ensures |c| == |s|
  {
    seq(|s|, i requires 0 <= i < |s| => s[i] as int)
  }

  lemma CodesInjective(s: string, t: string)
    requires Codes(s) == Codes(t)
    ensures s == t
  {
    forall i | 0 <= i < |s|
      ensures s[i] == t[i]
    {
      assert Codes(s)[i] == Codes(t)[i];
    }
  }

  // ------------------------------------------------------------------------
  // Sorting
  // ------------------------------------------------------------------------

  ghost predicate TotalPreorder<T(!new)>(le: (T, T) -> bool) {
    && (forall x, y :: le(x, y) || le(y, x))
    && (forall x, y, z :: le(x, y) && le(y, z) ==> le(x, z))
  }

  ghost predicate SortedBy<T>(le: (T, T) -> bool, s: seq<T>) {
    forall i, j :: 0 <= i < j < |s| ==> le(s[i], s[j])
  }

  /** The order tells the elements of s apart. */
  ghost predicate AntisymmetricOn<T>(le: (T, T) -> bool, s: seq<T>) {
    forall x, y :: x in s && y in s && le(x, y) && le(y, x) ==> x == y
  }

  function InsertBy<T>(le: (T, T) -> bool, x: T, s: seq<T>): (r: seq<T>)
    ensures |r| == |s| + 1
  {
    if s == [] || le(x, s[0]) then [x] + s else [s[0]] + InsertBy(le, x, s[1..])
  }

  /** The stable sort: equal elements keep their order. */
  function SortBy<T>(le: (T, T) -> bool, s: seq<T>): (r: seq<T>)
    ensures |r| == |s|
  {
    if s == [] then [] else InsertBy(le, s[0], SortBy(le, s[1..]))
  }

  lemma {:induction false} InsertByPermutes<T>(le: (T, T) -> bool, x: T, s: seq<T>)
    ensures multiset(InsertBy(le, x, s)) == multiset(s) + multiset{x}
  {
    if s != [] && !le(x, s[0]) {
      InsertByPermutes(le, x, s[1..]);
      assert s == [s[0]] + s[1..];
    }
  }

  lemma {:induction false} SortByPermutes<T>(le: (T, T) -> bool, s: seq<T>)
    ensures multiset(SortBy(le, s)) == multiset(s)
  {
    if s != [] {
      SortByPermutes(le, s[1..]);
      InsertByPermutes(le, s[0], SortBy(le, s[1..]));
      assert s == [s[0]] + s[1..];
    }
  }

  lemma {:induction false} InsertBySorts<T(!new)>(le: (T, T) -> bool, x: T, s: seq<T>)
    requires TotalPreorder(le) && SortedBy(le, s)
    ensures SortedBy(le, InsertBy(le, x, s))
  {
    if s != [] && !le(x, s[0]) {
      InsertBySorts(le, x, s[1..]);
      InsertByPermutes(le, x, s[1..]);
      var r := InsertBy(le, x, s[1..]);
      forall j | 0 <= j < |r|
        ensures le(s[0], r[j])
      {
        assert r[j] in multiset(r);
        assert r[j] == x || r[j] in s[1..];
      }
    }
  }

  lemma {:induction false} SortBySorts<T(!new)>(le: (T, T) -> bool, s: seq<T>)
    requires TotalPreorder(le)
    ensures SortedBy(le, SortBy(le, s))
  {
    if s != [] {
      SortBySorts(le, s[1..]);
      InsertBySorts(le, s[0], SortBy(le, s[1..]));
    }
  }

  lemma SameMultisetSameMembers<T>(a: seq<T>, b: seq<T>)
    requires multiset(a) == multiset(b)
    ensures |a| == |b| && forall x :: x in a <==> x in b
  {
    assert |multiset(a)| == |a| && |multiset(b)| == |b|;
    forall x
      ensures x in a <==> x in b
    {
      assert x in a <==> x in multiset(a);
      assert x in b <==> x in multiset(b);
    }
  }

  lemma SortedHead<T(!new)>(le: (T, T) -> bool, a: seq<T>, b: seq<T>)
    requires SortedBy(le, a) && SortedBy(le, b) && AntisymmetricOn(le, a)
    requires multiset(a) == multiset(b) && a != [] && b != []
    ensures a[0] == b[0]
  {
    SameMultisetSameMembers(a, b);
    assert a[0] in a && b[0] in b;
    var i :| 0 <= i < |b| && b[i] == a[0];
    var j :| 0 <= j < |a| && a[j] == b[0];
  }

  lemma SortedTail<T(!new)>(le: (T, T) -> bool, a: seq<T>)
    requires SortedBy(le, a) && AntisymmetricOn(le, a) && a != []
    ensures SortedBy(le, a[1..]) && AntisymmetricOn(le, a[1..]) && multiset(a[1..]) == multiset(a) - multiset{a[0]}
  {
    assert a == [a[0]] + a[1..];
    assert forall x :: x in a[1..] ==> x in a;
  }

  /** There is only one sorted arrangement when the order tells the elements apart. */
  lemma {:induction false} SortedUnique<T(!new)>(le: (T, T) -> bool, a: seq<T>, b: seq<T>)
    requires SortedBy(le, a) && SortedBy(le, b) && AntisymmetricOn(le, a)
    requires multiset(a) == multiset(b)
    ensures a == b
    decreases |a|
  {
    SameMultisetSameMembers(a, b);
    if a != [] {
      assert AntisymmetricOn(le, b);
      hide *;
      SortedHead(le, a, b);
      SortedTail(le, a);
      SortedTail(le, b);
      SortedUnique(le, a[1..], b[1..]);
      assert a == [a[0]] + a[1..] && b == [b[0]] + b[1..];
    }
  }

  /** Sorting depends on the multiset of the elements only. */
  lemma SortOfPermutation<T(!new)>(le: (T, T) -> bool, a: seq<T>, b: seq<T>)
    requires TotalPreorder(le) && AntisymmetricOn(le, a) && multiset(a) == multiset(b)
    ensures SortBy(le, a) == SortBy(le, b)
  {
    SortBySorts(le, a);
    SortBySorts(le, b);
    SortByPermutes(le, a);
    SortByPermutes(le, b);
    SameMultisetSameMembers(a, SortBy(le, a));
    SortedUnique(le, SortBy(le, a), SortBy(le, b));
  }

  /** A sequence that is already sorted is left alone. */
  lemma SortOfSorted<T(!new)>(le: (T, T) -> bool, a: seq<T>)
    requires TotalPreorder(le) && AntisymmetricOn(le, a) && SortedBy(le, a)
    ensures SortBy(le, a) == a
  {
    SortBySorts(le, a);
    SortByPermutes(le, a);
    SortedUnique(le, a, SortBy(le, a));
  }

  ghost function ToSet<T(!new)>(s: seq<T>): (r: set<T>)
    ensures forall x :: x in r <==> x in s
  {
    set x | x in s
  }

  lemma SomeMember<T>(s: set<T>) returns (x: T)
    requires s != {}
    ensures x in s
  {
    x :| x in s;
  }

  // ------------------------------------------------------------------------
  // Totals, which the order of a sequence does not affect
  // ------------------------------------------------------------------------

  function SumOf<T>(f: T -> nat, s: seq<T>): nat {
    if s == [] then 0 else f(s[0]) + SumOf(f, s[1..])
  }

  lemma {:induction false} SumOfAppend<T>(f: T -> nat, a: seq<T>, b: seq<T>)
    ensures SumOf(f, a + b) == SumOf(f, a) + SumOf(f, b)
  {
    if a == [] {
      assert a + b == b;
    } else {
      SumOfAppend(f, a[1..], b);
      assert (a + b)[1..] == a[1..] + b;
    }
  }

  lemma SumOfOne<T>(f: T -> nat, x: T)
    ensures SumOf(f, [x]) == f(x)
  {
    assert SumOf(f, [x]) == f(x) + SumOf(f, [x][1..]);
  }

  /** The sequence without its element at j. */
  function Without<T>(s: seq<T>, j: nat): (r: seq<T>)
    requires j < |s|
    ensures |r| == |s| - 1
  {
    s[..j] + s[j + 1..]
  }

  lemma WithoutMultiset<T>(s: seq<T>, j: nat)
    requires j < |s|
    ensures multiset(Without(s, j)) == multiset(s) - multiset{s[j]}
  {
    assert s == s[..j] + ([s[j]] + s[j + 1..]);
  }

  lemma {:induction false} WithoutSum<T>(f: T -> nat, s: seq<T>, j: nat)
    requires j < |s|
    ensures SumOf(f, s) == f(s[j]) + SumOf(f, Without(s, j))
  {
    if j == 0 {
      assert Without(s, 0) == s[1..];
    } else {
      WithoutSum(f, s[1..], j - 1);
      assert Without(s, j)[1..] == Without(s[1..], j - 1);
    }
  }

  lemma {:induction false} SumOfPermutation<T>(f: T -> nat, a: seq<T>, b: seq<T>)
    requires multiset(a) == multiset(b)
    ensures SumOf(f, a) == SumOf(f, b)
    decreases |a|
  {
    SameMultisetSameMembers(a, b);
    if a != [] {
      assert a[0] in b;
      var j :| 0 <= j < |b| && b[j] == a[0];
      WithoutMultiset(b, j);
      WithoutMultiset(a, 0);
      assert Without(a, 0) == a[1..];
      WithoutSum(f, b, j);
      SumOfPermutation(f, a[1..], Without(b, j));
    }
  }

  /** Elements summed one by one agree if the summands do. */
  lemma {:induction false} SumOfEqual<T>(f: T -> nat, g: T -> nat, s: seq<T>)
    requires forall x :: x in s ==> f(x) == g(x)
    ensures SumOf(f, s) == SumOf(g, s)
  {
    if s != [] {
      SumOfEqual(f, g, s[1..]);
    }
  }

  // ------------------------------------------------------------------------
  // Sequences without repetition
  // ------------------------------------------------------------------------

  ghost predicate NoRepeats<T>(s: seq<T>) {
    forall i, j :: 0 <= i < j < |s| ==> s[i] != s[j]
  }

  lemma {:induction false} RepeatsShowInMultiset<T>(s: seq<T>)
    ensures NoRepeats(s) <==> forall x :: x in s ==> multiset(s)[x] == 1
  {
    if s != [] {
      var k := |s| - 1;
      var init := s[..k];
      RepeatsShowInMultiset(init);
      assert s == init + [s[k]];
      if NoRepeats(s) {
        assert s[k] !in init;
        assert multiset(init)[s[k]] == 0;
      } else if NoRepeats(init) {
        var i, j :| 0 <= i < j < |s| && s[i] == s[j];
        assert init[i] == s[k];
        assert s[k] in multiset(init) && s[k] in s;
        assert multiset(s)[s[k]] >= 2;
      } else {
        var x :| x in init && multiset(init)[x] != 1;
        assert x in multiset(init) && x in s;
        assert multiset(s)[x] >= 2;
      }
    }
  }

  /** Sorting keeps the elements, and repetitions appear or not as before. */
  lemma SortKeepsNoRepeats<T(!new)>(le: (T, T) -> bool, s: seq<T>)
    ensures NoRepeats(s) ==> NoRepeats(SortBy(le, s))
    ensures forall x :: x in SortBy(le, s) <==> x in s
  {
    SortByPermutes(le, s);
    SameMultisetSameMembers(s, SortBy(le, s));
    RepeatsShowInMultiset(s);
    RepeatsShowInMultiset(SortBy(le, s));
  }

  lemma SameMembersSameMultiset<T>(a: seq<T>, b: seq<T>)
    requires NoRepeats(a) && NoRepeats(b) && forall x :: x in a <==> x in b
    ensures multiset(a) == multiset(b)
  {
    RepeatsShowInMultiset(a);
    RepeatsShowInMultiset(b);
    forall x
      ensures multiset(a)[x] == multiset(b)[x]
    {
      assert x in a <==> x in multiset(a);
      assert x in b <==> x in multiset(b);
    }
  }

  // ------------------------------------------------------------------------
  // Strictly ascending integer sequences, standing for the source's BTreeSet<u64>
  // ------------------------------------------------------------------------

  ghost predicate Ascending(s: seq<int>) {
    forall i, j :: 0 <= i < j < |s| ==> s[i] < s[j]
  }

  /** BTreeSet insertion. */
  function InsertAscending(x: int, s: seq<int>): seq<int> {
    if s == [] || x < s[0] then [x] + s
    else if x == s[0] then s
    else [s[0]] + InsertAscending(x, s[1..])
  }

  lemma {:induction false} InsertAscendingSpec(x: int, s: seq<int>)
    requires Ascending(s)
    ensures Ascending(InsertAscending(x, s))
    ensures forall y :: y in InsertAscending(x, s) <==> y == x || y in s
  {
    if s != [] && x > s[0] {
      InsertAscendingSpec(x, s[1..]);
      assert s == [s[0]] + s[1..];
      var rest := InsertAscending(x, s[1..]);
      forall j | 0 <= j < |rest|
        ensures s[0] < rest[j]
      {
        assert rest[j] in rest;
      }
    }
  }

  /** Sort and drop repetitions, the source's `sort_unstable(); dedup()`. */
  function SortDedup(s: seq<int>): seq<int> {
    if s == [] then [] else InsertAscending(s[0], SortDedup(s[1..]))
  }

  lemma {:induction false} SortDedupSpec(s: seq<int>)
    ensures Ascending(SortDedup(s))
    ensures forall y :: y in SortDedup(s) <==> y in s
  {
    if s != [] {
      SortDedupSpec(s[1..]);
      InsertAscendingSpec(s[0], SortDedup(s[1..]));
      assert s == [s[0]] + s[1..];
    }
  }

  lemma {:induction false} AscendingUnique(a: seq<int>, b: seq<int>)
    requires Ascending(a) && Ascending(b)
    requires forall y :: y in a <==> y in b
    ensures a == b
    decreases |b|
  {
    assert a != [] ==> a[0] in a && a[0] in b;
    if b != [] {
      assert b[0] in b && b[0] in a;
      assert a[0] == b[0];
      assert a == [a[0]] + a[1..] && b == [b[0]] + b[1..];
      forall y
        ensures y in a[1..] <==> y in b[1..]
      {
        assert y in a[1..] <==> y in a && y != a[0];
        assert y in b[1..] <==> y in b && y != b[0];
      }
      AscendingUnique(a[1..], b[1..]);
    }
  }

  // ------------------------------------------------------------------------
  // Binary search
  // ------------------------------------------------------------------------

  datatype Order = Less | Equal | Greater

  /** Elements comparing Less come first, then Equal, then Greater. */
  ghost predicate Partitioned<T>(cmp: T -> Order, s: seq<T>) {
    forall i, j :: 0 <= i < j < |s| ==>
      && (cmp(s[j]).Less? ==> cmp(s[i]).Less?)
      && (cmp(s[i]).Greater? ==> cmp(s[j]).Greater?)
  }

  /** `binary_search_by`: Ok of some index comparing Equal, or Err of the insertion point. */
  function BinarySearchBy<T>(cmp: T -> Order, s: seq<T>, lo: nat, hi: nat): (r: Result<nat, nat>)
    requires lo <= hi <= |s|
    ensures r.Ok? ==> lo <= r.value < hi && cmp(s[r.value]).Equal?
    ensures r.Err? ==> lo <= r.error <= hi
    ensures r.Err? && Partitioned(cmp, s) ==>
              && (forall i :: lo <= i < r.error ==> cmp(s[i]).Less?)
              && (forall i :: r.error <= i < hi ==> cmp(s[i]).Greater?)
    decreases hi - lo
  {
    if lo == hi then Err(lo)
    else
      var mid := (lo + hi) / 2;
      match cmp(s[mid])
      case Equal => Ok(mid)
      case Less => BinarySearchBy(cmp, s, mid + 1, hi)
      case Greater => BinarySearchBy(cmp, s, lo, mid)
  }
}
