/** Disjoint sets with path halving and union by size. */
module UnionFind {
  import opened Basics

  // ------------------------------------------------------------------------
  // The forest
  // ------------------------------------------------------------------------

  /** A parent's recorded size is at least twice its child's, so parent chains are short. */
  ghost predicate Forest(parent: seq<nat>, size: seq<nat>) {
    && |parent| == |size|
    && (forall x {:trigger size[x]} :: 0 <= x < |size| ==> 1 <= size[x] <= |size|)
    && (forall x {:trigger parent[x]} :: 0 <= x < |parent| ==>
          parent[x] < |parent| && (parent[x] != x ==> size[parent[x]] >= 2 * size[x]))
  }

  ghost function Root(parent: seq<nat>, size: seq<nat>, x: nat): (r: nat)
    requires Forest(parent, size) && x < |parent|
    ensures r < |parent| && parent[r] == r && size[r] >= size[x]
    decreases |parent| - size[x]
  {
    if parent[x] == x then x else Root(parent, size, parent[x])
  }

  ghost function Class(parent: seq<nat>, size: seq<nat>, r: nat): set<nat>
    requires Forest(parent, size)
  {
    set y | 0 <= y < |parent| && Root(parent, size, y) == r
  }

  /** The size recorded at a root is the cardinality of its class. */
  ghost predicate Sized(parent: seq<nat>, size: seq<nat>)
    requires Forest(parent, size)
  {
    forall r {:trigger Class(parent, size, r)} ::
      0 <= r < |parent| && parent[r] == r ==> size[r] == |Class(parent, size, r)|
  }

  ghost predicate SameRoots(p: seq<nat>, q: seq<nat>, size: seq<nat>)
    requires Forest(p, size) && Forest(q, size)
  {
    forall y :: 0 <= y < |p| ==> Root(p, size, y) == Root(q, size, y)
  }

  /** Pointing x at its grandparent keeps the forest and every root. */
  lemma HalvingKeepsRoots(p: seq<nat>, size: seq<nat>, x: nat)
    requires Forest(p, size) && x < |p|
    ensures var q := p[x := p[p[x]]]; Forest(q, size) && SameRoots(p, q, size)
  {
    var q := p[x := p[p[x]]];
    forall y | 0 <= y < |p|
      ensures Root(p, size, y) == Root(q, size, y)
    {
      HalvingKeepsRoot(p, size, x, y);
    }
  }

  lemma {:induction false} HalvingKeepsRoot(p: seq<nat>, size: seq<nat>, x: nat, y: nat)
    requires Forest(p, size) && x < |p| && y < |p|
    ensures var q := p[x := p[p[x]]]; Forest(q, size) && Root(q, size, y) == Root(p, size, y)
    decreases |p| - size[y]
  {
    if p[y] != y {
      HalvingKeepsRoot(p, size, x, p[y]);
      if y == x && p[p[x]] != p[x] {
        HalvingKeepsRoot(p, size, x, p[p[x]]);
      }
    }
  }

  lemma SameRootsKeepsSized(p: seq<nat>, q: seq<nat>, size: seq<nat>)
    requires Forest(p, size) && Forest(q, size) && SameRoots(p, q, size) && Sized(p, size)
    requires forall x :: 0 <= x < |p| ==> (q[x] == x ==> p[x] == x)
    ensures Sized(q, size)
  {
    forall r | 0 <= r < |q| && q[r] == r
      ensures size[r] == |Class(q, size, r)|
    {
      assert Class(q, size, r) == Class(p, size, r);
    }
  }

  /** Two classes never add up to more than all elements. */
  lemma TwoClassesFit(p: seq<nat>, size: seq<nat>, a: nat, b: nat)
    requires Forest(p, size) && Sized(p, size)
    requires a < |p| && b < |p| && a != b && p[a] == a && p[b] == b
    ensures size[a] + size[b] <= |p|
  {
    var both := Class(p, size, a) + Class(p, size, b);
    assert Class(p, size, a) !! Class(p, size, b);
    assert |both| == |Class(p, size, a)| + |Class(p, size, b)|;
    CardinalityMonotone(both, Range(|p|));
  }

  ghost function Range(n: nat): (s: set<nat>)
    ensures |s| == n && forall y :: y in s <==> 0 <= y < n
  {
    if n == 0 then {} else Range(n - 1) + {n - 1}
  }

  lemma {:induction false} CardinalityMonotone(a: set<nat>, b: set<nat>)
    requires a <= b
    ensures |a| <= |b|
  {
    if a != {} {
      var x :| x in a;
      CardinalityMonotone(a - {x}, b - {x});
    }
  }

  /** q is p with exactly the classes of a and b merged, under the root of the larger. */
  ghost predicate Merged(p: seq<nat>, s: seq<nat>, q: seq<nat>, s': seq<nat>, a: nat, b: nat)
    requires Forest(p, s) && Forest(q, s') && |p| == |q| && a < |p| && b < |p|
  {
    var ra, rb := Root(p, s, a), Root(p, s, b);
    var winner := if s[ra] >= s[rb] then ra else rb;
    forall y :: 0 <= y < |p| ==>
      Root(q, s', y) == if Root(p, s, y) == ra || Root(p, s, y) == rb then winner else Root(p, s, y)
  }

  /** Hanging root `small` under root `big` merges their two classes and no others. */
  lemma LinkMerges(p: seq<nat>, size: seq<nat>, big: nat, small: nat)
    requires Forest(p, size) && Sized(p, size)
    requires big < |p| && small < |p| && big != small && p[big] == big && p[small] == small
    requires size[big] >= size[small]
    ensures var q, size' := p[small := big], size[big := size[big] + size[small]];
            && Forest(q, size') && Sized(q, size')
            && forall y :: 0 <= y < |p| ==>
                 Root(q, size', y) == if Root(p, size, y) == small then big else Root(p, size, y)
  {
    TwoClassesFit(p, size, big, small);
    LinkRoot(p, size, big, small, big);
    forall y | 0 <= y < |p|
      ensures Root(p[small := big], size[big := size[big] + size[small]], y)
           == if Root(p, size, y) == small then big else Root(p, size, y)
    {
      LinkRoot(p, size, big, small, y);
    }
    LinkSizes(p, size, big, small);
  }

  /** The link of a union, in the order its arguments came. */
  lemma LinkOf(p: seq<nat>, size: seq<nat>, ra: nat, rb: nat)
    requires Forest(p, size) && Sized(p, size)
    requires ra < |p| && rb < |p| && ra != rb && p[ra] == ra && p[rb] == rb
    ensures var big, small := if size[ra] >= size[rb] then ra else rb, if size[ra] >= size[rb] then rb else ra;
            var q, size' := p[small := big], size[big := size[big] + size[small]];
            Forest(q, size') && Sized(q, size') && Merged(p, size, q, size', ra, rb)
  {
    if size[ra] >= size[rb] {
      LinkMerges(p, size, ra, rb);
    } else {
      LinkMerges(p, size, rb, ra);
    }
  }

  lemma LinkSizes(p: seq<nat>, size: seq<nat>, big: nat, small: nat)
    requires Forest(p, size) && Sized(p, size)
    requires big < |p| && small < |p| && big != small && p[big] == big && p[small] == small
    requires Forest(p[small := big], size[big := size[big] + size[small]])
    requires forall y :: 0 <= y < |p| ==>
               Root(p[small := big], size[big := size[big] + size[small]], y)
               == if Root(p, size, y) == small then big else Root(p, size, y)
    ensures Sized(p[small := big], size[big := size[big] + size[small]])
  {
    var q, size' := p[small := big], size[big := size[big] + size[small]];
    forall r | 0 <= r < |q| && q[r] == r
      ensures size'[r] == |Class(q, size', r)|
    {
      if r == big {
        assert Class(q, size', big) == Class(p, size, big) + Class(p, size, small);
        assert Class(p, size, big) !! Class(p, size, small);
      } else {
        assert Class(q, size', r) == Class(p, size, r);
      }
    }
  }

  lemma {:induction false} LinkRoot(p: seq<nat>, size: seq<nat>, big: nat, small: nat, y: nat)
    requires Forest(p, size) && y < |p|
    requires big < |p| && small < |p| && big != small && p[big] == big && p[small] == small
    requires size[big] >= size[small] && size[big] + size[small] <= |p|
    ensures var q, size' := p[small := big], size[big := size[big] + size[small]];
            && Forest(q, size')
            && Root(q, size', y) == if Root(p, size, y) == small then big else Root(p, size, y)
    decreases |p| - size[y]
  {
    if p[y] != y {
      LinkRoot(p, size, big, small, p[y]);
    }
  }

  /** One halving step of a find that started from forest p0. */
  lemma HalvingStep(p0: seq<nat>, p: seq<nat>, s: seq<nat>, x: nat)
    requires Forest(p0, s) && Forest(p, s) && Sized(p, s) && SameRoots(p0, p, s)
    requires x < |p| && p[x] != x
    ensures var q := p[x := p[p[x]]];
            && Forest(q, s) && Sized(q, s) && SameRoots(p0, q, s)
            && s[q[x]] >= 2 * s[x] && Root(q, s, q[x]) == Root(p, s, x)
  {
    var q := p[x := p[p[x]]];
    HalvingKeepsRoots(p, s, x);
    SameRootsKeepsSized(p, q, s);
  }

  // ------------------------------------------------------------------------
  // The structure
  // ------------------------------------------------------------------------

  class UnionFind {
    var parent: seq<nat>
    var size: seq<nat>

    ghost predicate Valid()
      reads this
    {
      Forest(parent, size) && Sized(parent, size)
    }

    constructor (n: nat)
      ensures Valid() && |parent| == n
      ensures forall x :: 0 <= x < n ==> Root(parent, size, x) == x
    {
      parent := seq(n, i => i);
      size := seq(n, _ => 1);
      new;
      forall r | 0 <= r < n
        ensures |Class(parent, size, r)| == 1
      {
        assert Class(parent, size, r) == {r};
      }
    }

    /** Returns the representative, changes no class, and loops at most log2 n times. */
    method Find(x0: nat) returns (r: nat, ghost steps: nat)
      requires Valid() && x0 < |parent|
      modifies this`parent
      ensures Valid() && |parent| == |old(parent)| && SameRoots(old(parent), parent, size)
      ensures r == Root(parent, size, x0) && parent[r] == r
      ensures Pow2(steps) <= |parent|
    {
      var x: nat := x0;
      steps := 0;
      while parent[x] != x
        invariant |parent| == |old(parent)| && x < |parent| && Valid()
        invariant SameRoots(old(parent), parent, size)
        invariant Root(parent, size, x) == Root(old(parent), size, x0)
        invariant Pow2(steps) <= size[x]
        decreases |parent| - size[x]
      {
        HalvingStep(old(parent), parent, size, x);
        parent := parent[x := parent[parent[x]]];
        x := parent[x];
        steps := steps + 1;
      }
      r := x;
    }

    /** The tail of a union: hangs the smaller of two distinct roots under the larger. */
    method Link(ra: nat, rb: nat)
      requires Valid() && ra < |parent| && rb < |parent| && ra != rb
      requires parent[ra] == ra && parent[rb] == rb
      modifies this
      ensures Valid() && |parent| == |old(parent)|
      ensures Merged(old(parent), old(size), parent, size, ra, rb)
    {
      hide Root, Merged;
      LinkOf(parent, size, ra, rb);
      var big, small := if size[ra] >= size[rb] then ra else rb, if size[ra] >= size[rb] then rb else ra;
      parent, size := parent[small := big], size[big := size[big] + size[small]];
    }

    /** Merges exactly the classes of a and b, under the representative of the larger. */
    method Union(a: nat, b: nat)
      requires Valid() && a < |parent| && b < |parent|
      modifies this
      ensures Valid() && |parent| == |old(parent)|
      ensures Merged(old(parent), old(size), parent, size, a, b)
    {
      ghost var p0, s := parent, size;
      var ra, _ := Find(a);
      ghost var p1 := parent;
      var rb, _ := Find(b);
      ghost var p2 := parent;
      assert Root(p2, s, a) == ra;
      if ra == rb {
      } else {
        Link(ra, rb);
      }
    }
  }
}
