/** Word n-gram shingle sets of normalized text. */
module Shingles {
  import opened Basics
  import opened Ordering
  import opened Words
  import opened Banding

  const SPACE: u8 := 0x20
  const UNIT_SEPARATOR: u8 := 0x1F

  /** `split(' ')` without the empty pieces; acc is the piece being read. */
  function SplitWords(text: Bytes, acc: Bytes): (words: seq<Bytes>)
    ensures forall w :: w in words ==> w != []
    decreases |text|
  {
    if text == [] then (if acc == [] then [] else [acc])
    else if text[0] == SPACE then (if acc == [] then [] else [acc]) + SplitWords(text[1..], [])
    else SplitWords(text[1..], acc + [text[0]])
  }

  function WordsOf(text: Bytes): seq<Bytes> {
    SplitWords(text, [])
  }

  ghost predicate IsWord(w: Bytes) {
    w != [] && SPACE !in w
  }

  lemma {:induction false} SplitIntoWords(text: Bytes, acc: Bytes)
    requires SPACE !in acc
    ensures forall w :: w in SplitWords(text, acc) ==> IsWord(w)
    decreases |text|
  {
    if text != [] {
      if text[0] == SPACE {
        SplitIntoWords(text[1..], []);
      } else {
        SplitIntoWords(text[1..], acc + [text[0]]);
      }
    }
  }

  lemma WordsAreWords(text: Bytes)
    ensures forall w :: w in WordsOf(text) ==> IsWord(w)
  {
    SplitIntoWords(text, []);
  }

  /** `join(" ")`. */
  function JoinSpace(words: seq<Bytes>): Bytes {
    if words == [] then []
    else if |words| == 1 then words[0]
    else words[0] + ([SPACE] + JoinSpace(words[1..]))
  }

  lemma {:induction false} SplitAfterWord(w: Bytes, rest: Bytes, acc: Bytes)
    requires SPACE !in w && acc + w != []
    ensures SplitWords(w, acc) == [acc + w]
    ensures SplitWords(w + ([SPACE] + rest), acc) == [acc + w] + SplitWords(rest, [])
    decreases |w|
  {
    var text := w + ([SPACE] + rest);
    if w == [] {
      assert text == [SPACE] + rest && text[1..] == rest && acc + w == acc;
    } else {
      assert text[0] == w[0] && text[1..] == w[1..] + ([SPACE] + rest);
      assert acc + [w[0]] + w[1..] == acc + w;
      assert forall c :: c in w[1..] ==> c in w;
      SplitAfterWord(w[1..], rest, acc + [w[0]]);
    }
  }

  /** Splitting joined words gives them back, so joining by spaces is unambiguous. */
  lemma {:induction false} WordsOfJoinSpace(words: seq<Bytes>)
    requires forall w :: w in words ==> IsWord(w)
    ensures WordsOf(JoinSpace(words)) == words
  {
    if words != [] {
      assert words[0] in words;
      SplitAfterWord(words[0], JoinSpace(words[1..]), []);
      assert [] + words[0] == words[0];
      WordsOfJoinSpace(words[1..]);
    }
  }

  function Join(words: seq<Bytes>): Bytes {
    if words == [] then []
    else if |words| == 1 then words[0]
    else words[0] + ([UNIT_SEPARATOR] + Join(words[1..]))
  }

  function ShingleHash(H: Hasher, window: seq<Bytes>): u64 {
    First8(H(Join(window)))
  }

  /** The hash of every window of n words, in order; none if there are fewer words. */
  function WindowHashes(H: Hasher, words: seq<Bytes>, n: nat): (hashes: seq<int>)
    ensures |hashes| == if |words| < n then 0 else |words| - n + 1
    ensures forall i :: 0 <= i < |hashes| ==> hashes[i] == ShingleHash(H, words[i..i + n])
  {
    if |words| < n then []
    else seq(|words| - n + 1, i requires 0 <= i <= |words| - n => ShingleHash(H, words[i..i + n]))
  }

  function ShingleSet(H: Hasher, text: Bytes, n: nat): seq<int> {
    SortDedup(WindowHashes(H, WordsOf(text), n))
  }

  /** The shingles are the distinct hashes of the windows, ascending. */
  lemma ShingleSetSpec(H: Hasher, text: Bytes, n: nat)
    ensures Ascending(ShingleSet(H, text, n))
    ensures forall h :: h in ShingleSet(H, text, n) <==> h in WindowHashes(H, WordsOf(text), n)
    ensures ShingleSet(H, text, n) == [] <==> |WordsOf(text)| < n
  {
    var hashes := WindowHashes(H, WordsOf(text), n);
    SortDedupSpec(hashes);
    if hashes != [] {
      assert hashes[0] in hashes;
    }
  }

  /** `shingle_hashes`: hash every window, sort, drop repetitions. */
  method ShingleHashes(H: Hasher, text: Bytes, n: nat) returns (hashes: seq<int>)
    requires n > 0
    ensures hashes == ShingleSet(H, text, n)
  {
    var words := WordsOf(text);
    if |words| < n {
      assert WindowHashes(H, words, n) == [];
      return [];
    }
    var all: seq<int> := [];
    for i := 0 to |words| - n + 1
      invariant all == WindowHashes(H, words, n)[..i]
    {
      all := all + [ShingleHash(H, words[i..i + n])];
    }
    assert all == WindowHashes(H, words, n);
    hashes := SortDedup(all);
  }

  // ------------------------------------------------------------------------
  // How far joined windows tell word boundaries apart
  // ------------------------------------------------------------------------

  /** A byte before a word goes to the front of its first piece, or starts a new one. */
  function Before(c: u8, pieces: seq<Bytes>): seq<Bytes>
    requires pieces != []
  {
    if c == UNIT_SEPARATOR then [[]] + pieces else [[c] + pieces[0]] + pieces[1..]
  }

  /** A word cut at every separator inside it. */
  function Pieces(word: Bytes): (pieces: seq<Bytes>)
    ensures pieces != []
  {
    if word == [] then [[]]
    else Before(word[0], Pieces(word[1..]))
  }

  function AllPieces(words: seq<Bytes>): seq<Bytes> {
    if words == [] then [] else Pieces(words[0]) + AllPieces(words[1..])
  }

  lemma BeforeAppend(c: u8, p: seq<Bytes>, q: seq<Bytes>)
    requires p != []
    ensures Before(c, p + q) == Before(c, p) + q
  {
    if c == UNIT_SEPARATOR {
      assert [[]] + (p + q) == ([[]] + p) + q;
    } else {
      assert (p + q)[1..] == p[1..] + q;
    }
  }

  lemma {:induction false} PiecesOfPair(a: Bytes, b: Bytes)
    ensures Pieces(a + ([UNIT_SEPARATOR] + b)) == Pieces(a) + Pieces(b)
  {
    var x := a + ([UNIT_SEPARATOR] + b);
    if a == [] {
      assert x == [UNIT_SEPARATOR] + b && x[1..] == b;
    } else {
      PiecesOfPair(a[1..], b);
      assert x[0] == a[0] && x[1..] == a[1..] + ([UNIT_SEPARATOR] + b);
      BeforeAppend(a[0], Pieces(a[1..]), Pieces(b));
    }
  }

  lemma {:induction false} PiecesOfJoin(words: seq<Bytes>)
    requires words != []
    ensures Pieces(Join(words)) == AllPieces(words)
  {
    if |words| == 1 {
      assert AllPieces(words[1..]) == [];
    } else {
      PiecesOfJoin(words[1..]);
      PiecesOfPair(words[0], Join(words[1..]));
    }
  }

  /** Joining the pieces again gives the word back. */
  lemma {:induction false} JoinOfPieces(word: Bytes)
    ensures Join(Pieces(word)) == word
  {
    if word != [] {
      JoinOfPieces(word[1..]);
      var rest, all := Pieces(word[1..]), Pieces(word);
      assert all[1..] == if word[0] == UNIT_SEPARATOR then rest else rest[1..];
    }
  }

  lemma {:induction false} PiecesOfSeparatorFree(words: seq<Bytes>)
    requires forall w :: w in words ==> UNIT_SEPARATOR !in w
    ensures AllPieces(words) == words
  {
    if words != [] {
      WordIsOnePiece(words[0]);
      PiecesOfSeparatorFree(words[1..]);
    }
  }

  lemma {:induction false} WordIsOnePiece(word: Bytes)
    requires UNIT_SEPARATOR !in word
    ensures Pieces(word) == [word]
  {
    if word != [] {
      WordIsOnePiece(word[1..]);
      assert [word[0]] + word[1..] == word;
    }
  }

  /** Two windows hash the same input exactly when, cut at the separators inside their words,
      they are the same pieces; so windows whose words hold no separator hash the same input
      only if they are equal. */
  lemma SameJoinIffSamePieces(a: seq<Bytes>, b: seq<Bytes>)
    requires a != [] && b != []
    ensures Join(a) == Join(b) <==> AllPieces(a) == AllPieces(b)
    ensures (forall w :: w in a + b ==> UNIT_SEPARATOR !in w) && Join(a) == Join(b) ==> a == b
  {
    PiecesOfJoin(a);
    PiecesOfJoin(b);
    JoinOfPieces(Join(a));
    JoinOfPieces(Join(b));
    if forall w :: w in a + b ==> UNIT_SEPARATOR !in w {
      PiecesOfSeparatorFree(a);
      PiecesOfSeparatorFree(b);
    }
  }

  /** Word boundaries are not unambiguous in general: normalization splits on white space,
      which the separator is not, so words may hold it. */
  lemma BoundariesCanBeAmbiguous()
    ensures var a: seq<Bytes>, b: seq<Bytes> := [[0x61, 0x1F, 0x62], [0x63]],
                                             [[0x61], [0x62, 0x1F, 0x63]];
            a != b && |a| == |b| && Join(a) == Join(b)
  {
    var a: seq<Bytes>, b: seq<Bytes> := [[0x61, 0x1F, 0x62], [0x63]],
                                             [[0x61], [0x62, 0x1F, 0x63]];
    assert a[0] != b[0];
    assert a[1..] == [[0x63]] && b[1..] == [[0x62, 0x1F, 0x63]];
  }

  // ------------------------------------------------------------------------
  // Shingle sets stand for sets of runs
  // ------------------------------------------------------------------------

  /** n consecutive words, cut at the separators inside them. */
  function RunAt(words: seq<Bytes>, i: nat, n: nat): seq<Bytes>
    requires i + n <= |words|
  {
    AllPieces(words[i..i + n])
  }

  function Runs(words: seq<Bytes>, n: nat): set<seq<Bytes>> {
    set i: nat | i + n <= |words| :: RunAt(words, i, n)
  }

  /** Two of the runs are different and hash, joined, to the same eight bytes. */
  ghost predicate RunsCollide(H: Hasher, runs: set<seq<Bytes>>) {
    exists x, y :: x in runs && y in runs && KeyCollision(H, Join(x), Join(y))
  }

  /** What is hashed of a window depends on its pieces alone. */
  lemma RunIsHashed(H: Hasher, window: seq<Bytes>)
    requires window != []
    ensures AllPieces(window) != [] && Join(AllPieces(window)) == Join(window)
    ensures AllPieces(AllPieces(window)) == AllPieces(window)
  {
    PiecesOfJoin(window);
    JoinOfPieces(Join(window));
    PiecesOfJoin(AllPieces(window));
  }

  /** A hash is in the set exactly if some run of n words has it. */
  lemma HashOfSomeRun(H: Hasher, text: Bytes, n: nat, h: int)
    requires n > 0
    ensures h in ShingleSet(H, text, n) <==> exists run :: run in Runs(WordsOf(text), n) && ShingleHash(H, run) == h
  {
    hide AllPieces, Join, WordsOf, ShingleSet, First8;
    var words := WordsOf(text);
    var hashes := WindowHashes(H, words, n);
    ShingleSetSpec(H, text, n);
    if h in hashes {
      var i :| 0 <= i < |hashes| && hashes[i] == h;
      RunIsHashed(H, words[i..i + n]);
      assert RunAt(words, i, n) in Runs(words, n);
    }
    if run :| run in Runs(words, n) && ShingleHash(H, run) == h {
      var i: nat :| i + n <= |words| && run == RunAt(words, i, n);
      RunIsHashed(H, words[i..i + n]);
      assert hashes[i] in hashes;
    }
  }

  /** Runs of two texts with the same hash are the same, or collide. */
  lemma RunsWithOneHash(H: Hasher, x: seq<Bytes>, y: seq<Bytes>, a: seq<Bytes>, b: seq<Bytes>, n: nat)
    requires n > 0 && x in Runs(a, n) && y in Runs(b, n) && ShingleHash(H, x) == ShingleHash(H, y)
    ensures x == y || KeyCollision(H, Join(x), Join(y))
  {
    hide AllPieces, Join;
    var i: nat :| i + n <= |a| && x == RunAt(a, i, n);
    var j: nat :| j + n <= |b| && y == RunAt(b, j, n);
    RunIsHashed(H, a[i..i + n]);
    RunIsHashed(H, b[j..j + n]);
    if Join(x) == Join(y) {
      SameJoinIffSamePieces(x, y);
    }
  }

  /** Two texts have a shingle in common exactly when they have a run of n words in common, or
      different runs whose joined words hash to the same eight bytes. */
  lemma CommonShingleMeans(H: Hasher, s: Bytes, t: Bytes, n: nat)
    requires n > 0
    ensures var a, b := Runs(WordsOf(s), n), Runs(WordsOf(t), n);
            (exists h :: h in ShingleSet(H, s, n) && h in ShingleSet(H, t, n)) <==>
              a * b != {} || exists x, y :: x in a && y in b && KeyCollision(H, Join(x), Join(y))
  {
    hide Runs, WordsOf, ShingleSet, ShingleHash, Join;
    var a, b := Runs(WordsOf(s), n), Runs(WordsOf(t), n);
    if h :| h in ShingleSet(H, s, n) && h in ShingleSet(H, t, n) {
      HashOfSomeRun(H, s, n, h);
      HashOfSomeRun(H, t, n, h);
      var x, y :| x in a && ShingleHash(H, x) == h && y in b && ShingleHash(H, y) == h;
      RunsWithOneHash(H, x, y, WordsOf(s), WordsOf(t), n);
      assert x == y ==> x in a * b;
    }
    if a * b != {} {
      var x :| x in a * b;
      HashOfSomeRun(H, s, n, ShingleHash(H, x));
      HashOfSomeRun(H, t, n, ShingleHash(H, x));
    }
    if x, y :| x in a && y in b && KeyCollision(H, Join(x), Join(y)) {
      CollidingHashes(H, x, y);
      HashOfSomeRun(H, s, n, ShingleHash(H, x));
      HashOfSomeRun(H, t, n, ShingleHash(H, x));
    }
  }

  lemma CollidingHashes(H: Hasher, x: seq<Bytes>, y: seq<Bytes>)
    requires KeyCollision(H, Join(x), Join(y))
    ensures ShingleHash(H, x) == ShingleHash(H, y)
  {
  }

  /** Unless runs collide, there are as many shingles as different runs, and as many in common as
      runs in common. */
  lemma ShinglesCountRuns(H: Hasher, s: Bytes, t: Bytes, n: nat)
    requires n > 0 && !RunsCollide(H, Runs(WordsOf(s), n) + Runs(WordsOf(t), n))
    ensures |ToSet(ShingleSet(H, s, n))| == |Runs(WordsOf(s), n)|
    ensures |ToSet(ShingleSet(H, s, n)) * ToSet(ShingleSet(H, t, n))| == |Runs(WordsOf(s), n) * Runs(WordsOf(t), n)|
  {
    hide Runs, WordsOf, ShingleSet, ShingleHash, Join;
    var a, b := Runs(WordsOf(s), n), Runs(WordsOf(t), n);
    var x, y := ToSet(ShingleSet(H, s, n)), ToSet(ShingleSet(H, t, n));
    var g := (run: seq<Bytes>) => ShingleHash(H, run) as int;
    forall p, q | p in a + b && q in a && g(p) == g(q)
      ensures p == q
    {
      if p in a {
        RunsWithOneHash(H, p, q, WordsOf(s), WordsOf(s), n);
      } else {
        RunsWithOneHash(H, p, q, WordsOf(t), WordsOf(s), n);
      }
    }
    forall h
      ensures h in x <==> exists run :: run in a && g(run) == h
      ensures h in y <==> exists run :: run in b && g(run) == h
    {
      HashOfSomeRun(H, s, n, h);
      HashOfSomeRun(H, t, n, h);
    }
    SizeOfImage(g, a, x);
    forall h
      ensures h in x * y <==> exists run :: run in a * b && g(run) == h
    {
      if h in x * y {
        var p, q :| p in a && g(p) == h && q in b && g(q) == h;
        assert p == q && p in a * b;
      }
    }
    SizeOfImage(g, a * b, x * y);
  }

  // ------------------------------------------------------------------------
  // Words of normalized text
  // ------------------------------------------------------------------------

  /** As white-space normalization leaves text: single spaces, none at either end. */
  predicate Collapsed(text: Bytes) {
    (text != [] ==> text[0] != SPACE) && SingleSpaces(text)
  }

  /** No two spaces in a row, and none at the end. */
  predicate SingleSpaces(text: Bytes) {
    && (text != [] ==> text[|text| - 1] != SPACE)
    && forall i :: 0 <= i < |text| - 1 ==> text[i] != SPACE || text[i + 1] != SPACE
  }

  lemma SingleSpacesBehind(text: Bytes)
    requires text != [] && SingleSpaces(text)
    ensures SingleSpaces(text[1..])
    ensures text[0] == SPACE ==> text[1..] != [] && text[1] != SPACE
  {
    var rest := text[1..];
    assert forall i :: 0 <= i < |rest| ==> rest[i] == text[i + 1];
  }

  lemma {:induction false} JoinOfSplit(text: Bytes, acc: Bytes)
    requires SPACE !in acc && acc + text != [] && SingleSpaces(text)
    requires text != [] && acc == [] ==> text[0] != SPACE
    ensures SplitWords(text, acc) != [] && JoinSpace(SplitWords(text, acc)) == acc + text
    decreases |text|
  {
    hide SingleSpaces;
    if text == [] {
      assert acc + text == acc;
    } else if text[0] == SPACE {
      SingleSpacesBehind(text);
      JoinOfSplit(text[1..], []);
      var rest := SplitWords(text[1..], []);
      assert ([acc] + rest)[1..] == rest;
      assert text == [SPACE] + text[1..] && [] + text[1..] == text[1..];
    } else {
      SingleSpacesBehind(text);
      JoinOfSplit(text[1..], acc + [text[0]]);
      assert acc + [text[0]] + text[1..] == acc + text;
    }
  }

  /** Normalized text is its words joined by single spaces. */
  lemma TextIsItsWords(text: Bytes)
    requires Collapsed(text)
    ensures JoinSpace(WordsOf(text)) == text
  {
    if text != [] {
      JoinOfSplit(text, []);
      assert [] + text == text;
    }
  }
}
