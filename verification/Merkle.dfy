/** The RFC 6962 Merkle layer: the level-by-level loops of the implementation against the
    recursive definitions of sections 2.1 and 2.1.1 of RFC 6962. */
module Merkle {
  import opened Basics

  const LEAF_PREFIX: u8 := 0x00
  const NODE_PREFIX: u8 := 0x01

  function LeafInput(leaf: Bytes): Bytes {
    [LEAF_PREFIX] + leaf
  }

  function NodeInput(left: Digest, right: Digest): Bytes {
    [NODE_PREFIX] + left + right
  }

  function LeafHash(H: Hasher, leaf: Bytes): Digest {
    H(LeafInput(leaf))
  }

  function NodeHash(H: Hasher, left: Digest, right: Digest): Digest {
    H(NodeInput(left, right))
  }

  function LeafHashes(H: Hasher, leaves: seq<Digest>): (level: seq<Digest>)
    ensures |level| == |leaves|
  {
    seq(|leaves|, i requires 0 <= i < |leaves| => LeafHash(H, leaves[i]))
  }

  // ------------------------------------------------------------------------
  // Section 2.1 of RFC 6962
  // ------------------------------------------------------------------------

  ghost predicate IsPowerOfTwo(k: nat) {
    k == 1 || (k >= 2 && k % 2 == 0 && IsPowerOfTwo(k / 2))
  }

  /** k, the largest power of two strictly below n. */
  function Split(n: nat): (k: nat)
    requires n >= 2
    ensures 1 <= k < n <= 2 * k
  {
    if n == 2 then 1 else 2 * Split((n + 1) / 2)
  }

  /** Split(n) is a power of two, and by its own contract the largest one below n. */
  lemma {:induction false} SplitIsPowerOfTwo(n: nat)
    requires n >= 2
    ensures IsPowerOfTwo(Split(n))
  {
    if n > 2 {
      SplitIsPowerOfTwo((n + 1) / 2);
    }
  }

  /** MTH(D), the Merkle Tree Hash of section 2.1. */
  function MTH(H: Hasher, leaves: seq<Digest>): Digest
    decreases |leaves|
  {
    if leaves == [] then H([])
    else if |leaves| == 1 then LeafHash(H, leaves[0])
    else
      var k := Split(|leaves|);
      NodeHash(H, MTH(H, leaves[..k]), MTH(H, leaves[k..]))
  }

  /** PATH(m, D[n]), the audit path of section 2.1.1: siblings deepest first. */
  function PATH(H: Hasher, m: nat, leaves: seq<Digest>): seq<Digest>
    requires m < |leaves|
    decreases |leaves|
  {
    if |leaves| == 1 then []
    else
      var k := Split(|leaves|);
      if m < k then PATH(H, m, leaves[..k]) + [MTH(H, leaves[k..])]
      else PATH(H, m - k, leaves[k..]) + [MTH(H, leaves[..k])]
  }

  /** The definitions of sections 2.1 and 2.1.1, spelled out: a zero byte before a leaf, a one byte
      before a left and a right node, and k a power of two with k < n <= 2k. */
  lemma RfcDefinitions(H: Hasher, D: seq<Digest>)
    ensures D == [] ==> MTH(H, D) == H([])
    ensures |D| == 1 ==> MTH(H, D) == H([0x00] + D[0]) && PATH(H, 0, D) == []
    ensures |D| >= 2 ==>
              exists k: nat ::
                && 1 <= k < |D| <= 2 * k && IsPowerOfTwo(k)
                && MTH(H, D) == H([0x01] + MTH(H, D[..k]) + MTH(H, D[k..]))
                && (forall m: nat :: m < k ==> PATH(H, m, D) == PATH(H, m, D[..k]) + [MTH(H, D[k..])])
                && (forall m: nat :: k <= m < |D| ==> PATH(H, m, D) == PATH(H, m - k, D[k..]) + [MTH(H, D[..k])])
  {
    if |D| >= 2 {
      SplitIsPowerOfTwo(|D|);
      var k := Split(|D|);
      assert MTH(H, D) == H([0x01] + MTH(H, D[..k]) + MTH(H, D[k..]));
    }
  }

  /** The same recursion as MTH over nodes that are already hashed. */
  function TreeHash(H: Hasher, level: seq<Digest>): Digest
    requires |level| >= 1
    decreases |level|
  {
    if |level| == 1 then level[0]
    else
      var k := Split(|level|);
      NodeHash(H, TreeHash(H, level[..k]), TreeHash(H, level[k..]))
  }

  /** The same recursion as PATH over nodes that are already hashed. */
  function Path(H: Hasher, m: nat, level: seq<Digest>): seq<Digest>
    requires m < |level|
    decreases |level|
  {
    if |level| == 1 then []
    else
      var k := Split(|level|);
      if m < k then Path(H, m, level[..k]) + [TreeHash(H, level[k..])]
      else Path(H, m - k, level[k..]) + [TreeHash(H, level[..k])]
  }

  /** The root that a leaf hash at index m of n leaves and a sibling list lead to, following
      the recursion of PATH from the root down; None when the list has the wrong length. */
  function RootFromPath(H: Hasher, leafHash: Digest, m: nat, n: nat, path: seq<Digest>): Option<Digest>
    requires m < n
    decreases n
  {
    if n == 1 then (if path == [] then Some(leafHash) else None)
    else if path == [] then None
    else
      var k := Split(n);
      var rest, last := path[..|path| - 1], path[|path| - 1];
      if m < k then
        match RootFromPath(H, leafHash, m, k, rest)
        case Some(r) => Some(NodeHash(H, r, last))
        case None => None
      else
        match RootFromPath(H, leafHash, m - k, n - k, rest)
        case Some(r) => Some(NodeHash(H, last, r))
        case None => None
  }

  // ------------------------------------------------------------------------
  // One level of the loops
  // ------------------------------------------------------------------------

  /** The next level: adjacent pairs hashed, a lone rightmost node carried up unchanged. */
  function NextLevel(H: Hasher, level: seq<Digest>): (next: seq<Digest>)
    ensures |next| == (|level| + 1) / 2
  {
    if |level| <= 1 then level
    else [NodeHash(H, level[0], level[1])] + NextLevel(H, level[2..])
  }

  /** The source's `idx ^ 1`. */
  function Sibling(idx: nat): (s: nat) {
    if idx % 2 == 0 then idx + 1 else idx - 1
  }

  lemma {:induction false} NextLevelAppend(H: Hasher, a: seq<Digest>, b: seq<Digest>)
    requires |a| % 2 == 0
    ensures NextLevel(H, a + b) == NextLevel(H, a) + NextLevel(H, b)
    decreases |a|
  {
    if a == [] {
      assert a + b == b;
    } else {
      assert (a + b)[2..] == a[2..] + b;
      NextLevelAppend(H, a[2..], b);
    }
  }

  lemma {:induction false} NextLevelAt(H: Hasher, level: seq<Digest>, i: nat)
    requires i < (|level| + 1) / 2
    ensures NextLevel(H, level)[i] ==
            if 2 * i + 1 < |level| then NodeHash(H, level[2 * i], level[2 * i + 1]) else level[2 * i]
    decreases i
  {
    if i > 0 {
      NextLevelAt(H, level[2..], i - 1);
    }
  }

  /** Above two nodes the split point is even, and halving the size halves it. */
  lemma SplitHalves(n: nat)
    requires n >= 3
    ensures Split(n) % 2 == 0 && Split(n) >= 2 && Split((n + 1) / 2) == Split(n) / 2
  {
  }

  /** Splitting a level commutes with taking the next one. */
  lemma NextLevelSplit(H: Hasher, level: seq<Digest>, k: nat)
    requires k % 2 == 0 && k <= |level|
    ensures NextLevel(H, level)[..k / 2] == NextLevel(H, level[..k])
    ensures NextLevel(H, level)[k / 2..] == NextLevel(H, level[k..])
  {
    assert level == level[..k] + level[k..];
    NextLevelAppend(H, level[..k], level[k..]);
    assert |NextLevel(H, level[..k])| == k / 2;
  }

  lemma {:induction false} NextLevelKeepsTreeHash(H: Hasher, level: seq<Digest>)
    requires |level| >= 2
    ensures TreeHash(H, NextLevel(H, level)) == TreeHash(H, level)
    decreases |level|
  {
    if |level| >= 3 {
      var k := Split(|level|);
      SplitHalves(|level|);
      NextLevelSplit(H, level, k);
      NextLevelKeepsTreeHash(H, level[..k]);
      if |level| - k >= 2 {
        NextLevelKeepsTreeHash(H, level[k..]);
      }
    }
  }

  /** The sibling of node m at this level, as the zero or one path elements it contributes. */
  function SiblingElement(m: nat, level: seq<Digest>): seq<Digest>
    requires m < |level|
  {
    if Sibling(m) < |level| then [level[Sibling(m)]] else []
  }

  /** An even cut of the level does not separate siblings. */
  lemma SiblingElementOfHalf(m: nat, level: seq<Digest>, k: nat)
    requires m < |level| && k < |level| && k % 2 == 0
    ensures m < k ==> SiblingElement(m, level[..k]) == SiblingElement(m, level)
    ensures m >= k ==> SiblingElement(m - k, level[k..]) == SiblingElement(m, level)
  {
    hide Sibling;
    EvenCut(m, k);
  }

  lemma EvenCut(m: nat, k: nat)
    requires k % 2 == 0
    ensures m < k ==> Sibling(m) < k
    ensures m >= k ==> Sibling(m - k) == Sibling(m) - k
  {
    var h := k / 2;
    assert m >= k ==> (m - 2 * h) % 2 == m % 2;
  }

  /** How PATH of a level and of its next level unfold at corresponding split points. */
  lemma PathUnfolds(H: Hasher, m: nat, level: seq<Digest>)
    requires |level| >= 3 && m < |level|
    ensures var k := Split(|level|);
            Path(H, m / 2, NextLevel(H, level)) ==
            if m < k then Path(H, m / 2, NextLevel(H, level[..k])) + [TreeHash(H, level[k..])]
            else Path(H, (m - k) / 2, NextLevel(H, level[k..])) + [TreeHash(H, level[..k])]
  {
    hide Path, TreeHash, NextLevel;
    var k := Split(|level|);
    SplitHalves(|level|);
    NextLevelSplit(H, level, k);
    PathSplits(H, m / 2, NextLevel(H, level));
    assert (m - k) / 2 == m / 2 - k / 2;
    NextLevelKeepsTreeHash(H, level[..k]);
    if |level| - k >= 2 {
      NextLevelKeepsTreeHash(H, level[k..]);
    } else {
      LoneNext(H, level[k..]);
    }
  }

  lemma LoneNext(H: Hasher, level: seq<Digest>)
    requires |level| <= 1
    ensures NextLevel(H, level) == level
  {
  }

  lemma PathSplits(H: Hasher, m: nat, level: seq<Digest>)
    requires |level| >= 2 && m < |level|
    ensures var k := Split(|level|);
            Path(H, m, level) == if m < k then Path(H, m, level[..k]) + [TreeHash(H, level[k..])]
                                 else Path(H, m - k, level[k..]) + [TreeHash(H, level[..k])]
  {
  }

  /** The claim of the next lemma for a single node, which has no sibling. */
  lemma PathOfOne(H: Hasher, m: nat, level: seq<Digest>)
    requires |level| == 1 && m == 0
    ensures Path(H, m, level) == SiblingElement(m, level) + Path(H, m / 2, NextLevel(H, level))
  {
  }

  lemma PathOfTwo(H: Hasher, m: nat, level: seq<Digest>)
    requires |level| == 2 && m < 2
    ensures Path(H, m, level) == SiblingElement(m, level) + Path(H, m / 2, NextLevel(H, level))
  {
  }

  lemma {:induction false} NextLevelKeepsPath(H: Hasher, m: nat, level: seq<Digest>)
    requires |level| >= 2 && m < |level|
    ensures Path(H, m, level) == SiblingElement(m, level) + Path(H, m / 2, NextLevel(H, level))
    decreases |level|
  {
    hide *;
    if |level| == 2 {
      PathOfTwo(H, m, level);
    } else {
      var k := Split(|level|);
      SplitHalves(|level|);
      PathSplits(H, m, level);
      PathUnfolds(H, m, level);
      SiblingElementOfHalf(m, level, k);
      var half, m' := if m < k then level[..k] else level[k..], if m < k then m else m - k;
      var top := [TreeHash(H, if m < k then level[k..] else level[..k])];
      if |half| >= 2 {
        NextLevelKeepsPath(H, m', half);
      } else {
        PathOfOne(H, m', half);
      }
      var sibling, above := SiblingElement(m', half), Path(H, m' / 2, NextLevel(H, half));
      assert (sibling + above) + top == sibling + (above + top);
    }
  }

  /** Combine the running hash of node m with its sibling's. */
  function Combine(H: Hasher, m: nat, current: Digest, sibling: Digest): Digest {
    if m % 2 == 0 then NodeHash(H, current, sibling) else NodeHash(H, sibling, current)
  }

  /** One level of the verifier's climb where node m has no sibling: carried up unchanged. */
  lemma {:induction false} ClimbWithoutSibling(H: Hasher, current: Digest, m: nat, n: nat, path: seq<Digest>)
    requires n >= 2 && m < n <= Sibling(m)
    ensures RootFromPath(H, current, m, n, path) == RootFromPath(H, current, m / 2, (n + 1) / 2, path)
    decreases n
  {
    hide Split, NodeHash;
    SplitHalves(n);
    var k := Split(n);
    assert n == m + 1 && m % 2 == 0;
    assert m >= k && (m - k) / 2 == m / 2 - k / 2;
    if path != [] && n - k >= 2 {
      ClimbWithoutSibling(H, current, m - k, n - k, path[..|path| - 1]);
    }
  }

  /** The root above a half, with the last path element as the other half. */
  function Above(H: Hasher, left: bool, half: Option<Digest>, other: Digest): Option<Digest> {
    match half
    case None => None
    case Some(r) => Some(if left then NodeHash(H, r, other) else NodeHash(H, other, r))
  }

  lemma RootOfHalf(H: Hasher, current: Digest, m: nat, n: nat, path: seq<Digest>)
    requires n >= 2 && m < n && path != []
    ensures var k, rest := Split(n), path[..|path| - 1];
            RootFromPath(H, current, m, n, path) ==
            Above(H, m < k, RootFromPath(H, current, if m < k then m else m - k, if m < k then k else n - k, rest),
                  path[|path| - 1])
  {
  }

  lemma ClimbOfTwo(H: Hasher, current: Digest, m: nat, path: seq<Digest>)
    requires m < 2 && path != []
    ensures RootFromPath(H, current, m, 2, path) == RootFromPath(H, Combine(H, m, current, path[0]), 0, 1, path[1..])
  {
    assert Split(2) == 1;
  }

  /** What halving does to a node's place in a tree of three or more nodes. */
  lemma PlaceInHalf(m: nat, n: nat)
    requires n >= 3 && m < n
    ensures var k, h := Split(n), (n + 1) / 2;
            && h >= 2 && m / 2 < h && Split(h) == k / 2
            && (m < k <==> m / 2 < Split(h))
            && (m < k ==> k >= 2 && k < n && (k + 1) / 2 == Split(h) && Sibling(m) < k)
            && (m >= k ==> (m - k) / 2 == m / 2 - Split(h) && (n - k + 1) / 2 == h - Split(h)
                           && Sibling(m - k) == Sibling(m) - k && (m - k) % 2 == m % 2)
  {
    var k := Split(n);
    SplitHalves(n);
    EvenCut(m, k);
    var q := k / 2;
    assert k == 2 * q;
    assert m >= k ==> (m - 2 * q) % 2 == m % 2;
  }

  /** One level of the climb where node m has a sibling: one path element is consumed. */
  lemma {:induction false} ClimbWithSibling(H: Hasher, current: Digest, m: nat, n: nat, path: seq<Digest>)
    requires n >= 2 && m < n && Sibling(m) < n
    ensures path == [] ==> RootFromPath(H, current, m, n, path) == None
    ensures path != [] ==>
              RootFromPath(H, current, m, n, path) ==
              RootFromPath(H, Combine(H, m, current, path[0]), m / 2, (n + 1) / 2, path[1..])
    decreases n, 1
  {
    hide Split, NodeHash, Above, RootFromPath, Sibling, Combine;
    if path == [] {
      ClimbTooShort(H, current, m, n);
    } else if n == 2 {
      ClimbOfTwo(H, current, m, path);
    } else {
      ClimbInHalf(H, current, m, n, path);
    }
  }

  lemma ClimbInHalf(H: Hasher, current: Digest, m: nat, n: nat, path: seq<Digest>)
    requires n >= 3 && m < n && Sibling(m) < n && path != []
    ensures RootFromPath(H, current, m, n, path) ==
            RootFromPath(H, Combine(H, m, current, path[0]), m / 2, (n + 1) / 2, path[1..])
    decreases n, 0
  {
    hide Split, NodeHash, Above, RootFromPath, Sibling, Combine;
    PlaceInHalf(m, n);
    var k, h, rest, last := Split(n), (n + 1) / 2, path[..|path| - 1], path[|path| - 1];
    var m', n' := if m < k then m else m - k, if m < k then k else n - k;
    var up := Combine(H, m, current, path[0]);
    RootOfHalf(H, current, m, n, path);
    SameCombination(H, m, m', current, path[0]);
    if n' == 1 {
      NoSiblingOfOne(m');
    }
    ClimbWithSibling(H, current, m', n', rest);
    if rest == [] {
      ClimbTooShort(H, up, m / 2, h);
      NoneAbove(H, m < k, last);
      assert path[1..] == [];
    } else {
      assert path[1..][..|path| - 2] == rest[1..] && path[1..][|path| - 2] == last;
      RootOfHalf(H, up, m / 2, h, path[1..]);
      assert rest[0] == path[0];
    }
  }

  lemma SameCombination(H: Hasher, m: nat, m': nat, current: Digest, sibling: Digest)
    requires m % 2 == m' % 2
    ensures Combine(H, m, current, sibling) == Combine(H, m', current, sibling)
  {
  }

  lemma NoSiblingOfOne(m: nat)
    requires m < 1
    ensures Sibling(m) == 1
  {
  }

  lemma ClimbTooShort(H: Hasher, current: Digest, m: nat, n: nat)
    requires n >= 2 && m < n
    ensures RootFromPath(H, current, m, n, []) == None
  {
  }

  lemma NoneAbove(H: Hasher, left: bool, other: Digest)
    ensures Above(H, left, None, other) == None
  {
  }

  lemma LeafHashesSplit(H: Hasher, leaves: seq<Digest>, k: nat)
    requires k <= |leaves|
    ensures LeafHashes(H, leaves)[..k] == LeafHashes(H, leaves[..k])
    ensures LeafHashes(H, leaves)[k..] == LeafHashes(H, leaves[k..])
  {
  }

  lemma {:induction false} TreeHashOfLeaves(H: Hasher, leaves: seq<Digest>)
    requires leaves != []
    ensures TreeHash(H, LeafHashes(H, leaves)) == MTH(H, leaves)
    decreases |leaves|
  {
    if |leaves| >= 2 {
      var k := Split(|leaves|);
      LeafHashesSplit(H, leaves, k);
      TreeHashOfLeaves(H, leaves[..k]);
      TreeHashOfLeaves(H, leaves[k..]);
    }
  }

  lemma {:induction false} PathOfLeaves(H: Hasher, m: nat, leaves: seq<Digest>)
    requires m < |leaves|
    ensures Path(H, m, LeafHashes(H, leaves)) == PATH(H, m, leaves)
    decreases |leaves|
  {
    if |leaves| >= 2 {
      var k := Split(|leaves|);
      LeafHashesSplit(H, leaves, k);
      TreeHashOfLeaves(H, leaves[..k]);
      TreeHashOfLeaves(H, leaves[k..]);
      if m < k {
        PathOfLeaves(H, m, leaves[..k]);
      } else {
        PathOfLeaves(H, m - k, leaves[k..]);
      }
    }
  }

  // ------------------------------------------------------------------------
  // The loops
  // ------------------------------------------------------------------------

  lemma NextLevelUnfolds(H: Hasher, level: seq<Digest>, i: nat)
    requires i <= |level|
    ensures i + 1 < |level| ==>
              NextLevel(H, level[i..]) == [NodeHash(H, level[i], level[i + 1])] + NextLevel(H, level[i + 2..])
    ensures i + 1 >= |level| ==> NextLevel(H, level[i..]) == level[i..]
  {
    if i + 1 < |level| {
      assert level[i..][2..] == level[i + 2..];
    }
  }

  /** The inner loop that both walks share. */
  method BuildNextLevel(H: Hasher, level: seq<Digest>) returns (next: seq<Digest>)
    ensures next == NextLevel(H, level)
  {
    hide NodeHash, NextLevel;
    next := [];
    var i := 0;
    assert level[0..] == level;
    while i + 1 < |level|
      invariant 0 <= i <= |level|
      invariant next + NextLevel(H, level[i..]) == NextLevel(H, level)
    {
      NextLevelUnfolds(H, level, i);
      next := next + [NodeHash(H, level[i], level[i + 1])];
      i := i + 2;
    }
    NextLevelUnfolds(H, level, i);
    if i < |level| {
      assert level[i..] == [level[i]];
      next := next + [level[i]];
    }
  }

  /** `merkle_root`: the carry-up loop computes MTH for every list, power of two or not. */
  method MerkleRoot(H: Hasher, leaves: seq<Digest>) returns (root: Digest)
    ensures root == MTH(H, leaves)
  {
    if leaves == [] {
      return H([]);
    }
    var level := LeafHashes(H, leaves);
    TreeHashOfLeaves(H, leaves);
    while |level| > 1
      invariant |level| >= 1
      invariant TreeHash(H, level) == MTH(H, leaves)
      decreases |level|
    {
      NextLevelKeepsTreeHash(H, level);
      level := BuildNextLevel(H, level);
    }
    root := level[0];
  }

  datatype MerkleTree = MerkleTree(leaves: seq<Digest>)

  datatype AuditPathError = IndexOutOfBounds(leafIndex: nat, treeSize: nat)

  /** What `audit_path` returns: PATH for an index in bounds, an error otherwise. */
  function AuditPathResult(H: Hasher, tree: MerkleTree, leafIndex: nat): Result<seq<Digest>, AuditPathError> {
    if leafIndex < |tree.leaves| then Ok(PATH(H, leafIndex, tree.leaves))
    else Err(IndexOutOfBounds(leafIndex, |tree.leaves|))
  }

  lemma LonePath(H: Hasher, level: seq<Digest>)
    ensures |level| == 1 ==> PATH(H, 0, level) == [] && Path(H, 0, level) == []
  {
  }

  /** `audit_path`: the level-by-level walk produces PATH, element for element. */
  method AuditPath(H: Hasher, tree: MerkleTree, leafIndex: nat) returns (r: Result<seq<Digest>, AuditPathError>)
    ensures r == AuditPathResult(H, tree, leafIndex)
  {
    hide PATH, Path, NextLevel, LeafHashes;
    var treeSize := |tree.leaves|;
    if leafIndex >= treeSize {
      return Err(IndexOutOfBounds(leafIndex, treeSize));
    }
    LonePath(H, tree.leaves);
    if treeSize == 1 {
      return Ok([]);
    }
    var path: seq<Digest> := [];
    var level := LeafHashes(H, tree.leaves);
    var idx := leafIndex;
    PathOfLeaves(H, leafIndex, tree.leaves);
    while |level| > 1
      invariant 0 <= idx < |level|
      invariant path + Path(H, idx, level) == PATH(H, leafIndex, tree.leaves)
      decreases |level|
    {
      NextLevelKeepsPath(H, idx, level);
      ghost var above := Path(H, idx / 2, NextLevel(H, level));
      assert path + (SiblingElement(idx, level) + above) == (path + SiblingElement(idx, level)) + above;
      var siblingIdx := Sibling(idx);
      if siblingIdx < |level| {
        path := path + [level[siblingIdx]];
      } else {
        assert path + [] == path;
      }
      level := BuildNextLevel(H, level);
      idx := idx / 2;
    }
    LonePath(H, level);
    assert path + [] == path;
    assert path == PATH(H, leafIndex, tree.leaves);
    r := Ok(path);
  }

  /** What `verify_audit_path` decides. */
  predicate Accepts(H: Hasher, root: Digest, leaf: Digest, leafIndex: nat, treeSize: nat, path: seq<Digest>) {
    leafIndex < treeSize && RootFromPath(H, LeafHash(H, leaf), leafIndex, treeSize, path) == Some(root)
  }

  /** `verify_audit_path`: the bottom-up climb over the claimed sizes. */
  method VerifyAuditPath(H: Hasher, root: Digest, leaf: Digest, leafIndex: nat, treeSize: nat, path: seq<Digest>)
    returns (ok: bool)
    ensures ok == Accepts(H, root, leaf, leafIndex, treeSize, path)
  {
    if treeSize == 0 || leafIndex >= treeSize {
      return false;
    }
    if treeSize == 1 {
      return path == [] && root == LeafHash(H, leaf);
    }
    var current: Digest := LeafHash(H, leaf);
    var next := 0;
    var idx := leafIndex;
    var levelSize := treeSize;
    while levelSize > 1
      invariant 0 <= idx < levelSize
      invariant 0 <= next <= |path|
      invariant RootFromPath(H, current, idx, levelSize, path[next..])
             == RootFromPath(H, LeafHash(H, leaf), leafIndex, treeSize, path)
      decreases levelSize
    {
      var siblingIdx := Sibling(idx);
      if siblingIdx < levelSize {
        ClimbWithSibling(H, current, idx, levelSize, path[next..]);
        if next == |path| {
          return false;
        }
        var sibling := path[next];
        assert path[next..][1..] == path[next + 1..];
        next := next + 1;
        current := if idx % 2 == 0 then NodeHash(H, current, sibling) else NodeHash(H, sibling, current);
      } else {
        ClimbWithoutSibling(H, current, idx, levelSize, path[next..]);
      }
      idx := idx / 2;
      levelSize := (levelSize + 1) / 2;
    }
    if next < |path| {
      return false;
    }
    ok := current == root;
  }

  // ------------------------------------------------------------------------
  // Completeness of audit paths, and the one length the verifier accepts
  // ------------------------------------------------------------------------

  /** ceil(log2 n): the least c with n <= 2^c. */
  function CeilLog2(n: nat): (c: nat)
    requires n >= 1
    ensures n <= Pow2(c) && (c > 0 ==> Pow2(c - 1) < n)
  {
    if n == 1 then 0 else 1 + CeilLog2((n + 1) / 2)
  }

  function PathLength(m: nat, n: nat): nat
    requires m < n
    decreases n
  {
    if n == 1 then 0
    else
      var k := Split(n);
      1 + if m < k then PathLength(m, k) else PathLength(m - k, n - k)
  }

  lemma {:induction false} SplitBelowPow2(n: nat, c: nat)
    requires 2 <= n <= Pow2(c)
    ensures c >= 1 && Split(n) <= Pow2(c - 1)
  {
    if n > 2 {
      SplitBelowPow2((n + 1) / 2, c - 1);
    }
  }

  lemma {:induction false} PathLengthBound(m: nat, n: nat, c: nat)
    requires m < n <= Pow2(c)
    ensures PathLength(m, n) <= c
    decreases n
  {
    if n >= 2 {
      var k := Split(n);
      SplitBelowPow2(n, c);
      if m < k {
        PathLengthBound(m, k, c - 1);
      } else {
        PathLengthBound(m - k, n - k, c - 1);
      }
    }
  }

  /** An audit path has exactly PathLength elements. */
  lemma {:induction false} AuditPathLength(H: Hasher, m: nat, leaves: seq<Digest>)
    requires m < |leaves|
    ensures |PATH(H, m, leaves)| == PathLength(m, |leaves|)
    decreases |leaves|
  {
    if |leaves| >= 2 {
      var k := Split(|leaves|);
      if m < k {
        AuditPathLength(H, m, leaves[..k]);
      } else {
        AuditPathLength(H, m - k, leaves[k..]);
      }
    }
  }

  lemma AuditPathIsShort(H: Hasher, m: nat, leaves: seq<Digest>)
    requires m < |leaves|
    ensures |PATH(H, m, leaves)| <= CeilLog2(|leaves|)
  {
    AuditPathLength(H, m, leaves);
    PathLengthBound(m, |leaves|, CeilLog2(|leaves|));
  }

  /** The verifier recomputes a root for exactly one path length per index and size, and so
      rejects every path of any other length whatever the root. */
  lemma {:induction false} VerifierPathLength(H: Hasher, leafHash: Digest, m: nat, n: nat, path: seq<Digest>)
    requires m < n
    ensures RootFromPath(H, leafHash, m, n, path).Some? <==> |path| == PathLength(m, n)
    decreases n
  {
    if n >= 2 && path != [] {
      var k := Split(n);
      var rest := path[..|path| - 1];
      if m < k {
        VerifierPathLength(H, leafHash, m, k, rest);
      } else {
        VerifierPathLength(H, leafHash, m - k, n - k, rest);
      }
    }
  }

  lemma LoneLeafAccepted(H: Hasher, leaves: seq<Digest>)
    requires |leaves| == 1
    ensures Accepts(H, MTH(H, leaves), leaves[0], 0, 1, PATH(H, 0, leaves))
  {
  }

  lemma RootAndPathOfHalves(H: Hasher, m: nat, leaves: seq<Digest>)
    requires |leaves| >= 2 && m < |leaves|
    ensures var k := Split(|leaves|);
            && MTH(H, leaves) == NodeHash(H, MTH(H, leaves[..k]), MTH(H, leaves[k..]))
            && PATH(H, m, leaves) == if m < k then PATH(H, m, leaves[..k]) + [MTH(H, leaves[k..])]
                                     else PATH(H, m - k, leaves[k..]) + [MTH(H, leaves[..k])]
  {
  }

  /** The generated path is accepted for its own leaf, index and size. */
  lemma {:induction false} AuditPathAccepted(H: Hasher, m: nat, leaves: seq<Digest>)
    requires m < |leaves|
    ensures Accepts(H, MTH(H, leaves), leaves[m], m, |leaves|, PATH(H, m, leaves))
    decreases |leaves|
  {
    hide RootFromPath, PATH, MTH, NodeHash, LeafHash;
    if |leaves| == 1 {
      LoneLeafAccepted(H, leaves);
    } else {
      var k, path := Split(|leaves|), PATH(H, m, leaves);
      RootAndPathOfHalves(H, m, leaves);
      RootOfHalf(H, LeafHash(H, leaves[m]), m, |leaves|, path);
      if m < k {
        AuditPathAccepted(H, m, leaves[..k]);
        assert path[..|path| - 1] == PATH(H, m, leaves[..k]);
      } else {
        AuditPathAccepted(H, m - k, leaves[k..]);
        assert path[..|path| - 1] == PATH(H, m - k, leaves[k..]);
      }
    }
  }
}
