/** What acceptance by the verifier, and equality of roots, imply about the leaves. No
    property of the hash function is assumed: each reduction either reaches its conclusion
    or computes two distinct inputs with the same hash, the first among the inputs hashed
    for the tree and the second among those hashed for the other tree or the proof. */
module MerkleSoundness {
  import opened Basics
  import opened Merkle

  /** The input whose hash is MTH(leaves). */
  function RootInput(H: Hasher, leaves: seq<Digest>): (x: Bytes)
    ensures H(x) == MTH(H, leaves)
  {
    if leaves == [] then []
    else if |leaves| == 1 then LeafInput(leaves[0])
    else
      var k := Split(|leaves|);
      NodeInput(MTH(H, leaves[..k]), MTH(H, leaves[k..]))
  }

  /** Every input hashed in computing MTH(leaves). */
  function TreeInputs(H: Hasher, leaves: seq<Digest>): set<Bytes>
    decreases |leaves|
  {
    {RootInput(H, leaves)} +
    if |leaves| <= 1 then {}
    else
      var k := Split(|leaves|);
      TreeInputs(H, leaves[..k]) + TreeInputs(H, leaves[k..])
  }

  /** The input whose hash the verifier compares with the claimed root. */
  function ProofRootInput(H: Hasher, leaf: Digest, m: nat, n: nat, path: seq<Digest>): (x: Bytes)
    requires m < n && RootFromPath(H, LeafHash(H, leaf), m, n, path).Some?
    ensures H(x) == RootFromPath(H, LeafHash(H, leaf), m, n, path).value
  {
    if n == 1 then LeafInput(leaf)
    else
      var k := Split(n);
      var rest, last := path[..|path| - 1], path[|path| - 1];
      if m < k then NodeInput(RootFromPath(H, LeafHash(H, leaf), m, k, rest).value, last)
      else NodeInput(last, RootFromPath(H, LeafHash(H, leaf), m - k, n - k, rest).value)
  }

  /** The prefix bytes and fixed widths make the hashed inputs unambiguous. */
  lemma InputsUnambiguous(a: Digest, b: Digest, c: Digest, d: Digest)
    ensures LeafInput(a) != NodeInput(c, d) && LeafInput(a) != [] && NodeInput(a, b) != []
    ensures LeafInput(a) == LeafInput(c) ==> a == c
    ensures NodeInput(a, b) == NodeInput(c, d) ==> a == c && b == d
  {
    assert LeafInput(a)[0] != NodeInput(c, d)[0];
    assert LeafInput(a)[1..] == a && LeafInput(c)[1..] == c;
    assert NodeInput(a, b)[1..33] == a && NodeInput(a, b)[33..] == b;
    assert NodeInput(c, d)[1..33] == c && NodeInput(c, d)[33..] == d;
  }

  /** Root binding: equal roots mean equal leaf lists, of whatever lengths, or a collision. */
  function RootCollision(H: Hasher, a: seq<Digest>, b: seq<Digest>): (c: Option<Collision>)
    requires MTH(H, a) == MTH(H, b)
    ensures c.None? ==> a == b
    ensures c.Some? ==> IsCollision(H, c.value) && c.value.0 in TreeInputs(H, a) && c.value.1 in TreeInputs(H, b)
    decreases |a|
  {
    var x, y := RootInput(H, a), RootInput(H, b);
    if x != y then Some((x, y))
    else if |a| <= 1 then
      UnambiguousRoots(H, a, b);
      None
    else
      UnambiguousRoots(H, a, b);
      var i, j := Split(|a|), Split(|b|);
      var left := RootCollision(H, a[..i], b[..j]);
      if left.Some? then left
      else
        HalvesMakeWholes(a, i, b, j);
        RootCollision(H, a[i..], b[j..])
  }

  lemma HalvesMakeWholes(a: seq<Digest>, i: nat, b: seq<Digest>, j: nat)
    requires i <= |a| && j <= |b|
    ensures a[..i] == b[..j] && a[i..] == b[j..] ==> a == b
  {
    assert a == a[..i] + a[i..] && b == b[..j] + b[j..];
  }

  /** The digests a root input is made of: one leaf, or the roots of the halves. */
  lemma RootInputShape(H: Hasher, leaves: seq<Digest>) returns (l: Digest, r: Digest)
    ensures leaves == [] ==> RootInput(H, leaves) == []
    ensures |leaves| == 1 ==> RootInput(H, leaves) == LeafInput(l) && leaves == [l]
    ensures |leaves| >= 2 ==>
              && RootInput(H, leaves) == NodeInput(l, r)
              && l == MTH(H, leaves[..Split(|leaves|)]) && r == MTH(H, leaves[Split(|leaves|)..])
  {
    l, r := H([]), H([]);
    if |leaves| == 1 {
      l := leaves[0];
    } else if |leaves| >= 2 {
      l, r := MTH(H, leaves[..Split(|leaves|)]), MTH(H, leaves[Split(|leaves|)..]);
    }
  }

  /** Trees with the same root input have the same shape at the top. */
  lemma UnambiguousRoots(H: Hasher, a: seq<Digest>, b: seq<Digest>)
    requires RootInput(H, a) == RootInput(H, b)
    ensures |a| <= 1 ==> a == b
    ensures |a| >= 2 ==>
              |b| >= 2 && MTH(H, a[..Split(|a|)]) == MTH(H, b[..Split(|b|)])
              && MTH(H, a[Split(|a|)..]) == MTH(H, b[Split(|b|)..])
  {
    hide *;
    var al, ar := RootInputShape(H, a);
    var bl, br := RootInputShape(H, b);
    InputsUnambiguous(al, ar, bl, br);
    InputsUnambiguous(bl, br, al, ar);
  }

  /** The part of a proof below its last element: a proof for one half of the claimed tree. */
  function SubIndex(m: nat, n: nat): (r: (nat, nat))
    requires m < n && n >= 2
    ensures r.0 < r.1 < n
  {
    var k := Split(n);
    if m < k then (m, k) else (m - k, n - k)
  }

  function SubRoot(H: Hasher, leaf: Digest, m: nat, n: nat, path: seq<Digest>): (r: Digest)
    requires n >= 2 && m < n && RootFromPath(H, LeafHash(H, leaf), m, n, path).Some?
    ensures path != []
    ensures RootFromPath(H, LeafHash(H, leaf), SubIndex(m, n).0, SubIndex(m, n).1, path[..|path| - 1]) == Some(r)
  {
    RootFromPath(H, LeafHash(H, leaf), SubIndex(m, n).0, SubIndex(m, n).1, path[..|path| - 1]).value
  }

  /** Every input hashed in verifying the proof. */
  function ProofInputs(H: Hasher, leaf: Digest, m: nat, n: nat, path: seq<Digest>): set<Bytes>
    requires m < n && RootFromPath(H, LeafHash(H, leaf), m, n, path).Some?
    decreases n
  {
    {ProofRootInput(H, leaf, m, n, path)} +
    if n == 1 then {}
    else
      var _ := SubRoot(H, leaf, m, n, path);
      ProofInputs(H, leaf, SubIndex(m, n).0, SubIndex(m, n).1, path[..|path| - 1])
  }

  /** Verifier soundness. Whatever index and size a proof claims, acceptance against the root
      of D means its leaf is in D; when the claimed size is |D|, it is the leaf at the claimed
      index and the path is the audit path itself. Otherwise, a collision. */
  function InclusionCollision(H: Hasher, D: seq<Digest>, leaf: Digest, m: nat, n: nat, path: seq<Digest>)
    : (c: Option<Collision>)
    requires Accepts(H, MTH(H, D), leaf, m, n, path)
    ensures c.None? ==> leaf in D
    ensures c.None? && n == |D| ==> leaf == D[m] && path == PATH(H, m, D)
    ensures c.Some? ==> IsCollision(H, c.value) && c.value.0 in TreeInputs(H, D)
                        && c.value.1 in ProofInputs(H, leaf, m, n, path)
    decreases n
  {
    var x, y := RootInput(H, D), ProofRootInput(H, leaf, m, n, path);
    if x != y then Some((x, y))
    else if n == 1 then
      UnambiguousLeafProof(H, D, leaf);
      None
    else
      UnambiguousNodeProof(H, D, leaf, m, n, path);
      var i, (m', n'), rest := Split(|D|), SubIndex(m, n), path[..|path| - 1];
      var half := if m < Split(n) then D[..i] else D[i..];
      HalfOfProof(H, D, m, n, path);
      InclusionCollision(H, half, leaf, m', n', rest)
  }

  /** A proof's path for a half, and the other half's root, make the audit path. */
  lemma HalfOfProof(H: Hasher, D: seq<Digest>, m: nat, n: nat, path: seq<Digest>)
    requires |D| >= 2 && m < n && n >= 2 && path != []
    ensures var i, rest, last := Split(|D|), path[..|path| - 1], path[|path| - 1];
            var half, other := if m < Split(n) then D[..i] else D[i..], if m < Split(n) then D[i..] else D[..i];
            && (forall d :: d in half ==> d in D)
            && (n == |D| ==> SubIndex(m, n).1 == |half|)
            && (n == |D| ==> D[m] == half[SubIndex(m, n).0])
            && (n == |D| && rest == PATH(H, SubIndex(m, n).0, half) && last == MTH(H, other) ==> path == PATH(H, m, D))
  {
    assert path == path[..|path| - 1] + [path[|path| - 1]];
  }

  lemma UnambiguousLeafProof(H: Hasher, D: seq<Digest>, leaf: Digest)
    requires RootInput(H, D) == LeafInput(leaf)
    ensures D == [leaf]
  {
    UnambiguousRoots(H, [leaf], D);
  }

  lemma UnambiguousNodeProof(H: Hasher, D: seq<Digest>, leaf: Digest, m: nat, n: nat, path: seq<Digest>)
    requires n >= 2 && Accepts(H, MTH(H, D), leaf, m, n, path)
    requires RootInput(H, D) == ProofRootInput(H, leaf, m, n, path)
    ensures |D| >= 2 && path != []
    ensures var i, last := Split(|D|), path[|path| - 1];
            var half, other := if m < Split(n) then D[..i] else D[i..], if m < Split(n) then D[i..] else D[..i];
            SubRoot(H, leaf, m, n, path) == MTH(H, half) && last == MTH(H, other)
  {
    var z := H([]);
    var r, last := SubRoot(H, leaf, m, n, path), path[|path| - 1];
    var l', r' := if m < Split(n) then r else last, if m < Split(n) then last else r;
    assert ProofRootInput(H, leaf, m, n, path) == NodeInput(l', r');
    InputsUnambiguous(if D == [] then z else D[0], z, l', r');
    InputsUnambiguous(l', r', l', r');
    if |D| >= 2 {
      InputsUnambiguous(MTH(H, D[..Split(|D|)]), MTH(H, D[Split(|D|)..]), l', r');
    }
  }

  // ------------------------------------------------------------------------
  // Positions, for any claimed size
  // ------------------------------------------------------------------------

  /** The proof is accepted against the root of D, and its walk meets no collision. */
  ghost predicate Clean(H: Hasher, D: seq<Digest>, leaf: Digest, m: nat, n: nat, path: seq<Digest>): (clean: bool)
    ensures clean ==> m < n
  {
    Accepts(H, MTH(H, D), leaf, m, n, path) && InclusionCollision(H, D, leaf, m, n, path).None?
  }

  /** One step down a walk without a collision: the proof less its last element is a proof
      for one half of the tree, again without a collision. */
  lemma WalkStep(H: Hasher, D: seq<Digest>, leaf: Digest, m: nat, n: nat, path: seq<Digest>)
    requires Clean(H, D, leaf, m, n, path)
    ensures n == 1 ==> D == [leaf]
    ensures n >= 2 ==>
              && |D| >= 2 && path != []
              && var half := if m < Split(n) then D[..Split(|D|)] else D[Split(|D|)..];
                 var (m', n'), rest := SubIndex(m, n), path[..|path| - 1];
                 Clean(H, half, leaf, m', n', rest)
  {
    hide MTH, RootFromPath, TreeInputs, ProofInputs, RootInput;
    if n == 1 {
      UnambiguousLeafProof(H, D, leaf);
    } else {
      UnambiguousNodeProof(H, D, leaf, m, n, path);
    }
  }

  /** Index zero of any claimed size is the first leaf, and the last index the last. */
  lemma {:induction false} EndsOfTree(H: Hasher, D: seq<Digest>, leaf: Digest, m: nat, n: nat, path: seq<Digest>)
    requires Clean(H, D, leaf, m, n, path)
    ensures D != []
    ensures m == 0 ==> leaf == D[0]
    ensures m == n - 1 ==> leaf == D[|D| - 1]
    decreases n
  {
    hide Clean, Split;
    WalkStep(H, D, leaf, m, n, path);
    if n >= 2 {
      var half := if m < Split(n) then D[..Split(|D|)] else D[Split(|D|)..];
      EndsOfTree(H, half, leaf, SubIndex(m, n).0, SubIndex(m, n).1, path[..|path| - 1]);
    }
  }

  /** The second leaf directly follows the first somewhere in D. */
  ghost predicate FollowsIn(D: seq<Digest>, left: Digest, right: Digest) {
    exists j :: 0 <= j < |D| - 1 && D[j] == left && D[j + 1] == right
  }

  lemma FollowsInWhole(D: seq<Digest>, i: nat, left: Digest, right: Digest)
    requires i <= |D|
    requires FollowsIn(D[..i], left, right) || FollowsIn(D[i..], left, right)
             || (0 < i < |D| && D[i - 1] == left && D[i] == right)
    ensures FollowsIn(D, left, right)
  {
    if FollowsIn(D[..i], left, right) {
      var j :| 0 <= j < |D[..i]| - 1 && D[..i][j] == left && D[..i][j + 1] == right;
      assert D[j] == left && D[j + 1] == right;
    } else if FollowsIn(D[i..], left, right) {
      var j :| 0 <= j < |D[i..]| - 1 && D[i..][j] == left && D[i..][j + 1] == right;
      assert D[i + j] == left && D[i + j + 1] == right;
    } else {
      assert D[i - 1] == left && D[i - 1 + 1] == right;
    }
  }

  /** Successive indices of one claimed size, whatever it is, are successive leaves. */
  lemma {:induction false} SuccessiveIndices(H: Hasher, D: seq<Digest>, left: Digest, right: Digest, m: nat, n: nat,
                                             leftPath: seq<Digest>, rightPath: seq<Digest>)
    requires Clean(H, D, left, m, n, leftPath) && Clean(H, D, right, m + 1, n, rightPath)
    ensures FollowsIn(D, left, right)
    decreases n
  {
    hide Clean, FollowsIn, Split;
    WalkStep(H, D, left, m, n, leftPath);
    WalkStep(H, D, right, m + 1, n, rightPath);
    var i, k, lp, rp := Split(|D|), Split(n), leftPath[..|leftPath| - 1], rightPath[..|rightPath| - 1];
    if m + 1 < k {
      assert SubIndex(m, n) == (m, k) && SubIndex(m + 1, n) == (m + 1, k);
      SuccessiveIndices(H, D[..i], left, right, m, k, lp, rp);
    } else if m >= k {
      assert SubIndex(m, n) == (m - k, n - k) && SubIndex(m + 1, n) == (m + 1 - k, n - k);
      SuccessiveIndices(H, D[i..], left, right, m - k, n - k, lp, rp);
    } else {
      assert SubIndex(m, n) == (m, k) && SubIndex(m + 1, n) == (0, n - k);
      EndsOfTree(H, D[..i], left, m, k, lp);
      EndsOfTree(H, D[i..], right, 0, n - k, rp);
    }
    FollowsInWhole(D, i, left, right);
  }
}
