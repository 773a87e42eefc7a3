/** The sidecar's bytes: `to_bytes` appends fields to a buffer, `from_bytes` reads them back
    with a cursor that never leaves the body. */
module SidecarFormat {
  import opened Basics
  import opened Words
  import opened Banding
  import opened Sidecar

  type ParseResult<T> = Result<T, IndexError>

  function KindCode(kind: SubIndexKind): u16 {
    match kind
    case Minhash => 1
    case Perceptual => 2
    case Iscc => 3
  }

  function KindOf(code: nat): ParseResult<SubIndexKind>
    requires code < 0x1_0000
  {
    if code == 1 then Ok(Minhash)
    else if code == 2 then Ok(Perceptual)
    else if code == 3 then Ok(Iscc)
    else Err(UnknownKind(code))
  }

  // ------------------------------------------------------------------------
  // Printing
  // ------------------------------------------------------------------------

  function IdentityBytes(idx: FuzzyIndex): (b: Bytes)
    ensures |b| == 48
  {
    MAGIC + ToLE(FORMAT_VER, 2) + ToLE(KindCode(idx.kind), 2) + ToLE(0, 4) + idx.bindingRoot
  }

  /** Counts wrap at their field width, as `as` does. */
  function ShapeBytes(idx: FuzzyIndex): (b: Bytes)
    ensures |b| == 16
  {
    ToLE(idx.sigWidth, 2) + ToLE(idx.bands, 2) + ToLE(idx.rowsOrBits, 2) + ToLE(0, 2) + ToLE(|idx.signatures|, 8)
  }

  /** Everything before the first signature. */
  function HeaderBytes(idx: FuzzyIndex): (b: Bytes)
    ensures |b| == 64
  {
    IdentityBytes(idx) + ShapeBytes(idx)
  }

  function SignatureBytes(signatures: seq<SigEntry>): Bytes {
    if signatures == [] then []
    else ToLE(signatures[0].row, 8) + WordBytes(signatures[0].sig) + SignatureBytes(signatures[1..])
  }

  function BucketBytes(b: Bucket): (bytes: Bytes)
    ensures |bytes| == 14 + 8 * |b.members|
  {
    ToLE(b.key.0, 2) + ToLE(b.key.1, 8) + ToLE(|b.members|, 4) + WordBytes(b.members)
  }

  function BucketsBytes(buckets: seq<Bucket>): Bytes {
    if buckets == [] then [] else BucketBytes(buckets[0]) + BucketsBytes(buckets[1..])
  }

  function Body(idx: FuzzyIndex): (b: Bytes)
    ensures |b| == 64 + |SignatureBytes(idx.signatures)| + 8 + |BucketsBytes(idx.buckets)|
  {
    HeaderBytes(idx) + SignatureBytes(idx.signatures) + ToLE(|idx.buckets|, 8) + BucketsBytes(idx.buckets)
  }

  /** The body and its trailing digest. */
  function ToBytes(H: Hasher, idx: FuzzyIndex): Bytes {
    Body(idx) + H(Body(idx))
  }

  method ToBytesLoop(H: Hasher, idx: FuzzyIndex) returns (out: Bytes)
    ensures out == ToBytes(H, idx)
  {
    out := MAGIC + ToLE(FORMAT_VER, 2) + ToLE(KindCode(idx.kind), 2) + ToLE(0, 4) + idx.bindingRoot;
    out := out + ToLE(idx.sigWidth, 2) + ToLE(idx.bands, 2) + ToLE(idx.rowsOrBits, 2) + ToLE(0, 2);
    out := out + ToLE(|idx.signatures|, 8);
    assert out == HeaderBytes(idx);
    out := WriteSignatures(out, idx.signatures);
    out := out + ToLE(|idx.buckets|, 8);
    out := WriteBuckets(out, idx.buckets);
    assert out == Body(idx);
    out := out + H(out);
  }

  method WriteSignatures(start: Bytes, signatures: seq<SigEntry>) returns (out: Bytes)
    ensures out == start + SignatureBytes(signatures)
  {
    out := start;
    for i := 0 to |signatures|
      invariant out + SignatureBytes(signatures[i..]) == start + SignatureBytes(signatures)
    {
      assert signatures[i..][1..] == signatures[i + 1..];
      out := out + ToLE(signatures[i].row, 8);
      out := WriteWords(out, signatures[i].sig);
    }
  }

  method WriteBuckets(start: Bytes, buckets: seq<Bucket>) returns (out: Bytes)
    ensures out == start + BucketsBytes(buckets)
  {
    out := start;
    hide ToLE, WordBytes;
    for i := 0 to |buckets|
      invariant out + BucketsBytes(buckets[i..]) == start + BucketsBytes(buckets)
    {
      assert buckets[i..][1..] == buckets[i + 1..];
      ghost var was := out;
      var b := buckets[i];
      out := out + ToLE(b.key.0, 2);
      out := out + ToLE(b.key.1, 8);
      out := out + ToLE(|b.members|, 4);
      out := WriteWords(out, b.members);
      assert out == was + BucketBytes(b);
      assert was + (BucketBytes(b) + BucketsBytes(buckets[i + 1..])) == out + BucketsBytes(buckets[i + 1..]);
    }
  }

  method WriteWords(start: Bytes, words: seq<u64>) returns (out: Bytes)
    ensures out == start + WordBytes(words)
  {
    out := start;
    for i := 0 to |words|
      invariant out + WordBytes(words[i..]) == start + WordBytes(words)
    {
      assert words[i..][1..] == words[i + 1..];
      out := out + ToLE(words[i], 8);
    }
  }

  // ------------------------------------------------------------------------
  // Parsing
  // ------------------------------------------------------------------------

  function TakeAt(buf: Bytes, pos: nat, n: nat): (r: ParseResult<Bytes>)
    ensures r.Ok? ==> |r.value| == n
  {
    if pos + n > |buf| then Err(Truncated(pos, pos + n - |buf|)) else Ok(buf[pos..pos + n])
  }

  /** A little-endian word of n bytes. */
  function WordAt(buf: Bytes, pos: nat, n: nat): (r: ParseResult<nat>)
    ensures r.Ok? ==> r.value < Pow256(n) && pos + n <= |buf|
  {
    var b :- TakeAt(buf, pos, n);
    Ok(FromLE(b))
  }

  function WordsAt(buf: Bytes, pos: nat, n: nat): (r: ParseResult<seq<u64>>)
    ensures r.Ok? ==> |r.value| == n && (n == 0 || pos + 8 * n <= |buf|)
    decreases n
  {
    Pow256Values();
    if n == 0 then Ok([])
    else
      var w :- WordAt(buf, pos, 8);
      var rest :- WordsAt(buf, pos + 8, n - 1);
      Ok([w] + rest)
  }

  lemma NoWords(buf: Bytes, pos: nat)
    ensures WordsAt(buf, pos, 0) == Ok([])
  {
  }

  /** What a parse of the rest makes of the whole, some words being read already. */
  function After(words: seq<u64>, rest: ParseResult<seq<u64>>): ParseResult<seq<u64>> {
    if rest.Ok? then Ok(words + rest.value) else rest
  }

  lemma AfterFirst(words: seq<u64>, w: u64, rest: ParseResult<seq<u64>>)
    ensures After(words, After([w], rest)) == After(words + [w], rest)
  {
    if rest.Ok? {
      assert words + ([w] + rest.value) == words + [w] + rest.value;
    }
  }

  lemma WordsUnfold(buf: Bytes, pos: nat, n: nat)
    requires n > 0
    ensures WordAt(buf, pos, 8).Err? ==> WordsAt(buf, pos, n) == Err(WordAt(buf, pos, 8).error)
    ensures WordAt(buf, pos, 8).Ok? ==>
              WordsAt(buf, pos, n) == After([WordAt(buf, pos, 8).value], WordsAt(buf, pos + 8, n - 1))
  {
  }

  /** Signatures and the position after them. */
  function SignaturesAt(buf: Bytes, pos: nat, count: nat, width: nat): ParseResult<(seq<SigEntry>, nat)>
    decreases count
  {
    Pow256Values();
    if count == 0 then Ok(([], pos))
    else
      var row :- WordAt(buf, pos, 8);
      var sig :- WordsAt(buf, pos + 8, width);
      var rest :- SignaturesAt(buf, pos + 8 + 8 * width, count - 1, width);
      Ok(([SigEntry(row, sig)] + rest.0, rest.1))
  }

  function BucketAt(buf: Bytes, pos: nat): ParseResult<Bucket> {
    Pow256Values();
    var bandId :- WordAt(buf, pos, 2);
    var bandHash :- WordAt(buf, pos + 2, 8);
    var memberCount :- WordAt(buf, pos + 10, 4);
    var members :- WordsAt(buf, pos + 14, memberCount);
    Ok(Bucket((bandId, bandHash), members))
  }

  function BucketsAt(buf: Bytes, pos: nat, count: nat, acc: seq<Bucket>): ParseResult<seq<Bucket>>
    decreases count
  {
    if count == 0 then Ok(acc)
    else
      var b :- BucketAt(buf, pos);
      BucketsAt(buf, pos + 14 + 8 * |b.members|, count - 1, Put(acc, b.key, b.members))
  }

  datatype Header = Header(
    kind: SubIndexKind, bindingRoot: Digest, sigWidth: u16, bands: u16, rowsOrBits: u16, leafCount: u64)

  function HeaderAt(buf: Bytes): (r: ParseResult<Header>)
    ensures r.Ok? ==> |buf| >= 64
  {
    Pow256Values();
    var magic :- TakeAt(buf, 0, 8);
    if magic != MAGIC then Err(BadMagic)
    else
      var version :- WordAt(buf, 8, 2);
      if version != FORMAT_VER then Err(UnsupportedVersion(version))
      else
        var code :- WordAt(buf, 10, 2);
        var kind :- KindOf(code);
        var _ :- WordAt(buf, 12, 4);
        var root :- TakeAt(buf, 16, 32);
        var sigWidth :- WordAt(buf, 48, 2);
        var bands :- WordAt(buf, 50, 2);
        var rowsOrBits :- WordAt(buf, 52, 2);
        var _ :- WordAt(buf, 54, 2);
        var leafCount :- WordAt(buf, 56, 8);
        Ok(Header(kind, root, sigWidth, bands, rowsOrBits, leafCount))
  }

  function ParseBody(buf: Bytes): ParseResult<FuzzyIndex> {
    var h :- HeaderAt(buf);
    var sigs :- SignaturesAt(buf, 64, h.leafCount, h.sigWidth);
    var bucketCount :- WordAt(buf, sigs.1, 8);
    var buckets :- BucketsAt(buf, sigs.1 + 8, bucketCount, []);
    Ok(FuzzyIndex(h.kind, h.bindingRoot, h.sigWidth, h.bands, h.rowsOrBits, sigs.0, buckets))
  }

  /** `Vec::with_capacity` of signature entries, each a row and a vector header, panics when
      they take more than `isize::MAX` bytes. */
  predicate Allocatable(count: nat) {
    count * SIG_ENTRY_SIZE <= MAX_ALLOCATION
  }

  const SIG_ENTRY_SIZE := 32
  const MAX_ALLOCATION := 0x7FFF_FFFF_FFFF_FFFF

  /** The trailer is checked before anything else is read; space for the declared number of
      signatures is allocated once the header is. */
  function FromBytes(H: Hasher, bytes: Bytes): ParseResult<FuzzyIndex> {
    if |bytes| < 32 then Err(Truncated(|bytes|, 32 - |bytes|))
    else
      var body := bytes[..|bytes| - 32];
      if H(body) != bytes[|bytes| - 32..] then Err(TrailerMismatch)
      else if HeaderAt(body).Ok? && !Allocatable(HeaderAt(body).value.leafCount) then Err(CapacityOverflow)
      else ParseBody(body)
  }

  /** The source's cursor: its position stays within the buffer, so no read leaves it. */
  class Cursor {
    const buf: Bytes
    var pos: nat

    ghost predicate Valid()
      reads this
    {
      pos <= |buf|
    }

    constructor (buf: Bytes)
      ensures Valid() && this.buf == buf && pos == 0
    {
      this.buf := buf;
      pos := 0;
    }

    method Take(n: nat) returns (r: ParseResult<Bytes>)
      requires Valid()
      modifies this
      ensures Valid() && r == TakeAt(buf, old(pos), n)
      ensures pos == if r.Ok? then old(pos) + n else old(pos)
    {
      if pos + n > |buf| {
        return Err(Truncated(pos, pos + n - |buf|));
      }
      r := Ok(buf[pos..pos + n]);
      pos := pos + n;
    }

    method Word(n: nat) returns (r: ParseResult<nat>)
      requires Valid()
      modifies this
      ensures Valid() && r == WordAt(buf, old(pos), n)
      ensures pos == if r.Ok? then old(pos) + n else old(pos)
    {
      var b :- Take(n);
      r := Ok(FromLE(b));
    }

    method Words(n: nat) returns (r: ParseResult<seq<u64>>)
      requires Valid()
      modifies this
      ensures Valid() && r == WordsAt(buf, old(pos), n)
      ensures r.Ok? ==> pos == old(pos) + 8 * n
    {
      hide FromLE, Pow256, WordAt, WordsAt;
      var words: seq<u64> := [];
      ghost var start := pos;
      Pow256Values();
      assert WordsAt(buf, pos, n).Ok? ==> [] + WordsAt(buf, pos, n).value == WordsAt(buf, pos, n).value;
      for i := 0 to n
        invariant Valid() && pos == start + 8 * i
        invariant WordsAt(buf, start, n) == After(words, WordsAt(buf, pos, n - i))
      {
        WordsUnfold(buf, pos, n - i);
        var w :- Word(8);
        AfterFirst(words, w, WordsAt(buf, pos, n - i - 1));
        words := words + [w];
      }
      NoWords(buf, pos);
      assert words + [] == words;
      r := Ok(words);
    }
  }

  method ReadHeader(c: Cursor) returns (r: ParseResult<Header>)
    requires c.Valid() && c.pos == 0
    modifies c
    ensures c.Valid() && r == HeaderAt(c.buf)
    ensures r.Ok? ==> c.pos == 64
  {
    Pow256Values();
    var magic :- c.Take(8);
    if magic != MAGIC {
      return Err(BadMagic);
    }
    var version :- c.Word(2);
    if version != FORMAT_VER {
      return Err(UnsupportedVersion(version));
    }
    var code :- c.Word(2);
    var kind :- KindOf(code);
    var _ :- c.Word(4);
    var root :- c.Take(32);
    var sigWidth :- c.Word(2);
    var bands :- c.Word(2);
    var rowsOrBits :- c.Word(2);
    var _ :- c.Word(2);
    var leafCount :- c.Word(8);
    r := Ok(Header(kind, root, sigWidth, bands, rowsOrBits, leafCount));
  }

  method ReadSignatures(c: Cursor, count: nat, width: nat) returns (r: ParseResult<seq<SigEntry>>)
    requires c.Valid()
    modifies c
    ensures c.Valid()
    ensures r.Ok? ==> SignaturesAt(c.buf, old(c.pos), count, width) == Ok((r.value, c.pos))
    ensures r.Err? ==> SignaturesAt(c.buf, old(c.pos), count, width) == Err(r.error)
  {
    hide FromLE, Pow256, WordAt, WordsAt;
    Pow256Values();
    var signatures: seq<SigEntry> := [];
    ghost var whole := SignaturesAt(c.buf, c.pos, count, width);
    assert whole.Ok? ==> [] + whole.value.0 == whole.value.0;
    for i := 0 to count
      invariant c.Valid()
      invariant var rest := SignaturesAt(c.buf, c.pos, count - i, width);
                whole == if rest.Ok? then Ok((signatures + rest.value.0, rest.value.1)) else Err(rest.error)
    {
      ghost var was := signatures;
      var row :- c.Word(8);
      var sig :- c.Words(width);
      signatures := signatures + [SigEntry(row, sig)];
      ghost var rest := SignaturesAt(c.buf, c.pos, count - i - 1, width);
      assert rest.Ok? ==> was + ([SigEntry(row, sig)] + rest.value.0) == signatures + rest.value.0;
    }
    assert signatures + [] == signatures;
    r := Ok(signatures);
  }

  method ReadBucket(c: Cursor) returns (r: ParseResult<Bucket>)
    requires c.Valid()
    modifies c
    ensures c.Valid() && r == BucketAt(c.buf, old(c.pos))
    ensures r.Ok? ==> c.pos == old(c.pos) + 14 + 8 * |r.value.members|
  {
    Pow256Values();
    var bandId :- c.Word(2);
    var bandHash :- c.Word(8);
    var memberCount :- c.Word(4);
    var members :- c.Words(memberCount);
    r := Ok(Bucket((bandId, bandHash), members));
  }

  method ReadBuckets(c: Cursor, count: nat) returns (r: ParseResult<seq<Bucket>>)
    requires c.Valid()
    modifies c
    ensures c.Valid() && r == BucketsAt(c.buf, old(c.pos), count, [])
  {
    hide BucketAt, Put;
    var buckets: seq<Bucket> := [];
    for i := 0 to count
      invariant c.Valid()
      invariant BucketsAt(c.buf, c.pos, count - i, buckets) == BucketsAt(c.buf, old(c.pos), count, [])
    {
      var b :- ReadBucket(c);
      buckets := Put(buckets, b.key, b.members);
    }
    r := Ok(buckets);
  }

  method FromBytesLoop(H: Hasher, bytes: Bytes) returns (r: ParseResult<FuzzyIndex>)
    ensures r == FromBytes(H, bytes)
  {
    if |bytes| < 32 {
      return Err(Truncated(|bytes|, 32 - |bytes|));
    }
    var body := bytes[..|bytes| - 32];
    if H(body) != bytes[|bytes| - 32..] {
      return Err(TrailerMismatch);
    }
    var c := new Cursor(body);
    var h :- ReadHeader(c);
    if !Allocatable(h.leafCount) {
      return Err(CapacityOverflow);
    }
    var signatures :- ReadSignatures(c, h.leafCount, h.sigWidth);
    var bucketCount :- c.Word(8);
    var buckets :- ReadBuckets(c, bucketCount);
    r := Ok(FuzzyIndex(h.kind, h.bindingRoot, h.sigWidth, h.bands, h.rowsOrBits, signatures, buckets));
  }

  // ------------------------------------------------------------------------
  // Round trip
  // ------------------------------------------------------------------------

  /** A piece stands at a position of the buffer. */
  ghost predicate At(buf: Bytes, pos: nat, piece: Bytes) {
    pos + |piece| <= |buf| && buf[pos..pos + |piece|] == piece
  }

  lemma AtSplit(buf: Bytes, pos: nat, a: Bytes, b: Bytes)
    requires At(buf, pos, a + b)
    ensures At(buf, pos, a) && At(buf, pos + |a|, b)
  {
    assert buf[pos..pos + |a|] == (a + b)[..|a|];
    assert buf[pos + |a|..pos + |a| + |b|] == (a + b)[|a|..];
  }

  lemma ReadsWord(buf: Bytes, pos: nat, v: nat, n: nat)
    requires At(buf, pos, ToLE(v, n)) && v < Pow256(n)
    ensures WordAt(buf, pos, n) == Ok(v)
  {
    hide ToLE, FromLE, Pow256;
    FromToLE(v, n);
  }

  lemma {:induction false} ReadsWords(buf: Bytes, pos: nat, words: seq<u64>)
    requires At(buf, pos, WordBytes(words))
    ensures WordsAt(buf, pos, |words|) == Ok(words)
    decreases |words|
  {
    if words != [] {
      Pow256Values();
      AtSplit(buf, pos, ToLE(words[0], 8), WordBytes(words[1..]));
      ReadsWord(buf, pos, words[0], 8);
      ReadsWords(buf, pos + 8, words[1..]);
      assert words == [words[0]] + words[1..];
    }
  }

  /** The first signature of a printed block can be read, and leaves the rest of the block. */
  lemma ReadsFirstSignature(buf: Bytes, pos: nat, signatures: seq<SigEntry>, width: nat)
    requires signatures != [] && At(buf, pos, SignatureBytes(signatures)) && |signatures[0].sig| == width
    ensures WordAt(buf, pos, 8) == Ok(signatures[0].row) && WordsAt(buf, pos + 8, width) == Ok(signatures[0].sig)
    ensures At(buf, pos + 8 + 8 * width, SignatureBytes(signatures[1..]))
    ensures |SignatureBytes(signatures)| == 8 + 8 * width + |SignatureBytes(signatures[1..])|
  {
    Pow256Values();
    var s, rest := signatures[0], signatures[1..];
    AtSplit(buf, pos, ToLE(s.row, 8) + WordBytes(s.sig), SignatureBytes(rest));
    AtSplit(buf, pos, ToLE(s.row, 8), WordBytes(s.sig));
    ReadsWord(buf, pos, s.row, 8);
    ReadsWords(buf, pos + 8, s.sig);
  }

  lemma SignaturesStep(buf: Bytes, pos: nat, s: SigEntry, rest: seq<SigEntry>, end: nat, width: nat)
    requires WordAt(buf, pos, 8) == Ok(s.row) && WordsAt(buf, pos + 8, width) == Ok(s.sig)
    requires SignaturesAt(buf, pos + 8 + 8 * width, |rest|, width) == Ok((rest, end))
    ensures SignaturesAt(buf, pos, |rest| + 1, width) == Ok(([s] + rest, end))
  {
  }

  lemma {:induction false} ReadsSignatures(buf: Bytes, pos: nat, signatures: seq<SigEntry>, width: nat)
    requires At(buf, pos, SignatureBytes(signatures))
    requires forall i :: 0 <= i < |signatures| ==> |signatures[i].sig| == width
    ensures SignaturesAt(buf, pos, |signatures|, width) == Ok((signatures, pos + |SignatureBytes(signatures)|))
    decreases |signatures|
  {
    if signatures != [] {
      hide *;
      var s, rest := signatures[0], signatures[1..];
      ReadsFirstSignature(buf, pos, signatures, width);
      ReadsSignatures(buf, pos + 8 + 8 * width, rest, width);
      SignaturesStep(buf, pos, s, rest, pos + |SignatureBytes(signatures)|, width);
      assert signatures == [s] + rest;
    }
  }

  lemma ReadsBucket(buf: Bytes, pos: nat, b: Bucket)
    requires At(buf, pos, BucketBytes(b)) && |b.members| < 0x1_0000_0000
    ensures BucketAt(buf, pos) == Ok(b)
  {
    Pow256Values();
    var id, hash, count := ToLE(b.key.0, 2), ToLE(b.key.1, 8), ToLE(|b.members|, 4);
    AtSplit(buf, pos, id + hash + count, WordBytes(b.members));
    AtSplit(buf, pos, id + hash, count);
    AtSplit(buf, pos, id, hash);
    ReadsWord(buf, pos, b.key.0, 2);
    ReadsWord(buf, pos + 2, b.key.1, 8);
    ReadsWord(buf, pos + 10, |b.members|, 4);
    ReadsWords(buf, pos + 14, b.members);
  }

  lemma FirstBucketStands(buf: Bytes, pos: nat, buckets: seq<Bucket>)
    requires buckets != [] && At(buf, pos, BucketsBytes(buckets))
    ensures At(buf, pos, BucketBytes(buckets[0]))
    ensures pos + |BucketBytes(buckets[0])| <= |buf|
    ensures At(buf, pos + |BucketBytes(buckets[0])|, BucketsBytes(buckets[1..]))
    ensures |BucketsBytes(buckets)| == |BucketBytes(buckets[0])| + |BucketsBytes(buckets[1..])|
  {
    hide BucketBytes, At;
    AtSplit(buf, pos, BucketBytes(buckets[0]), BucketsBytes(buckets[1..]));
    AtEnds(buf, pos, BucketBytes(buckets[0]));
  }

  lemma AtEnds(buf: Bytes, pos: nat, piece: Bytes)
    requires At(buf, pos, piece)
    ensures pos + |piece| <= |buf|
  {
  }

  /** The first bucket of a printed block can be read, and leaves the rest of the block. */
  lemma ReadsFirstBucket(buf: Bytes, pos: nat, buckets: seq<Bucket>)
    requires buckets != [] && At(buf, pos, BucketsBytes(buckets)) && |buckets[0].members| < 0x1_0000_0000
    ensures BucketAt(buf, pos) == Ok(buckets[0])
    ensures pos + 14 + 8 * |buckets[0].members| <= |buf|
    ensures At(buf, pos + 14 + 8 * |buckets[0].members|, BucketsBytes(buckets[1..]))
    ensures |BucketsBytes(buckets)| == 14 + 8 * |buckets[0].members| + |BucketsBytes(buckets[1..])|
  {
    hide *;
    FirstBucketStands(buf, pos, buckets);
    ReadsBucket(buf, pos, buckets[0]);
    assert pos + |BucketBytes(buckets[0])| == pos + 14 + 8 * |buckets[0].members|;
  }

  lemma BucketsStep(buf: Bytes, pos: nat, count: nat, acc: seq<Bucket>, b: Bucket)
    requires BucketAt(buf, pos) == Ok(b)
    ensures BucketsAt(buf, pos, count + 1, acc)
         == BucketsAt(buf, pos + 14 + 8 * |b.members|, count, Put(acc, b.key, b.members))
  {
  }

  lemma NoBuckets(buf: Bytes, pos: nat, acc: seq<Bucket>)
    ensures BucketsAt(buf, pos, 0, acc) == Ok(acc + [])
  {
    assert acc + [] == acc;
  }

  lemma NextKeyAppends(acc: seq<Bucket>, buckets: seq<Bucket>)
    requires buckets != [] && AscendingKeys(acc + buckets)
    ensures Put(acc, buckets[0].key, buckets[0].members) == acc + [buckets[0]]
    ensures acc + buckets == (acc + [buckets[0]]) + buckets[1..]
  {
    var b := buckets[0];
    forall i | 0 <= i < |acc|
      ensures KeyLess(acc[i].key, b.key)
    {
      assert acc[i] == (acc + buckets)[i] && b == (acc + buckets)[|acc|];
    }
    PutAppends(acc, b.key, b.members);
  }

  lemma {:induction false} ReadsBuckets(buf: Bytes, pos: nat, acc: seq<Bucket>, buckets: seq<Bucket>)
    requires At(buf, pos, BucketsBytes(buckets)) && AscendingKeys(acc + buckets)
    requires forall i :: 0 <= i < |buckets| ==> |buckets[i].members| < 0x1_0000_0000
    ensures BucketsAt(buf, pos, |buckets|, acc) == Ok(acc + buckets)
    decreases |buckets|
  {
    hide *;
    if buckets == [] {
      NoBuckets(buf, pos, acc);
    } else {
      var b, rest := buckets[0], buckets[1..];
      ReadsFirstBucket(buf, pos, buckets);
      NextKeyAppends(acc, buckets);
      BucketsStep(buf, pos, |rest|, acc, b);
      ReadsBuckets(buf, pos + 14 + 8 * |b.members|, acc + [b], rest);
    }
  }

  /** The counts fit the fields that hold them, and the parts are as from_parts leaves them. */
  ghost predicate Fits(idx: FuzzyIndex) {
    && |idx.signatures| < 0x1_0000_0000_0000_0000
    && |idx.buckets| < 0x1_0000_0000_0000_0000
    && (forall i :: 0 <= i < |idx.signatures| ==> |idx.signatures[i].sig| == idx.sigWidth)
    && (forall i :: 0 <= i < |idx.buckets| ==> |idx.buckets[i].members| < 0x1_0000_0000)
    && AscendingKeys(idx.buckets)
  }

  lemma ReadsIdentity(buf: Bytes, idx: FuzzyIndex)
    requires At(buf, 0, IdentityBytes(idx))
    ensures TakeAt(buf, 0, 8) == Ok(MAGIC) && WordAt(buf, 8, 2) == Ok(FORMAT_VER)
    ensures WordAt(buf, 10, 2) == Ok(KindCode(idx.kind)) && WordAt(buf, 12, 4) == Ok(0)
    ensures TakeAt(buf, 16, 32) == Ok(idx.bindingRoot)
  {
    Pow256Values();
    var a, b, c, d, e := MAGIC, ToLE(FORMAT_VER, 2), ToLE(KindCode(idx.kind), 2), ToLE(0, 4), idx.bindingRoot;
    AtSplit(buf, 0, a + b + c + d, e);
    AtSplit(buf, 0, a + b + c, d);
    AtSplit(buf, 0, a + b, c);
    AtSplit(buf, 0, a, b);
    ReadsWord(buf, 8, FORMAT_VER, 2);
    ReadsWord(buf, 10, KindCode(idx.kind), 2);
    ReadsWord(buf, 12, 0, 4);
  }

  lemma ReadsShape(buf: Bytes, idx: FuzzyIndex)
    requires At(buf, 48, ShapeBytes(idx)) && |idx.signatures| < 0x1_0000_0000_0000_0000
    ensures WordAt(buf, 48, 2) == Ok(idx.sigWidth) && WordAt(buf, 50, 2) == Ok(idx.bands)
    ensures WordAt(buf, 52, 2) == Ok(idx.rowsOrBits) && WordAt(buf, 54, 2) == Ok(0)
    ensures WordAt(buf, 56, 8) == Ok(|idx.signatures|)
  {
    Pow256Values();
    var f, g, h := ToLE(idx.sigWidth, 2), ToLE(idx.bands, 2), ToLE(idx.rowsOrBits, 2);
    var z, n := ToLE(0, 2), ToLE(|idx.signatures|, 8);
    AtSplit(buf, 48, f + g + h + z, n);
    AtSplit(buf, 48, f + g + h, z);
    AtSplit(buf, 48, f + g, h);
    AtSplit(buf, 48, f, g);
    ReadsWord(buf, 48, idx.sigWidth, 2);
    ReadsWord(buf, 50, idx.bands, 2);
    ReadsWord(buf, 52, idx.rowsOrBits, 2);
    ReadsWord(buf, 54, 0, 2);
    ReadsWord(buf, 56, |idx.signatures|, 8);
  }

  lemma ReadsHeader(buf: Bytes, idx: FuzzyIndex)
    requires At(buf, 0, HeaderBytes(idx)) && |idx.signatures| < 0x1_0000_0000_0000_0000
    ensures HeaderAt(buf) == Ok(Header(idx.kind, idx.bindingRoot, idx.sigWidth, idx.bands, idx.rowsOrBits,
                                       |idx.signatures|))
  {
    AtSplit(buf, 0, IdentityBytes(idx), ShapeBytes(idx));
    ReadsIdentity(buf, idx);
    ReadsShape(buf, idx);
    HeaderOfFields(buf, idx);
  }

  lemma HeaderOfFields(buf: Bytes, idx: FuzzyIndex)
    requires TakeAt(buf, 0, 8) == Ok(MAGIC) && WordAt(buf, 8, 2) == Ok(FORMAT_VER)
    requires WordAt(buf, 10, 2) == Ok(KindCode(idx.kind)) && WordAt(buf, 12, 4) == Ok(0)
    requires TakeAt(buf, 16, 32) == Ok(idx.bindingRoot)
    requires WordAt(buf, 48, 2) == Ok(idx.sigWidth) && WordAt(buf, 50, 2) == Ok(idx.bands)
    requires WordAt(buf, 52, 2) == Ok(idx.rowsOrBits) && WordAt(buf, 54, 2) == Ok(0)
    requires WordAt(buf, 56, 8) == Ok(|idx.signatures|) && |idx.signatures| < 0x1_0000_0000_0000_0000
    ensures HeaderAt(buf) == Ok(Header(idx.kind, idx.bindingRoot, idx.sigWidth, idx.bands, idx.rowsOrBits,
                                       |idx.signatures|))
  {
  }

  /** Where the parts of a printed body stand, in front of whatever follows it. */
  lemma BodyLayout(buf: Bytes, idx: FuzzyIndex)
    requires At(buf, 0, Body(idx))
    ensures var p := 64 + |SignatureBytes(idx.signatures)|;
            At(buf, 0, HeaderBytes(idx)) && At(buf, 64, SignatureBytes(idx.signatures))
            && At(buf, p, ToLE(|idx.buckets|, 8)) && At(buf, p + 8, BucketsBytes(idx.buckets))
  {
    var sigs, count, buckets := SignatureBytes(idx.signatures), ToLE(|idx.buckets|, 8), BucketsBytes(idx.buckets);
    AtSplit(buf, 0, HeaderBytes(idx) + sigs + count, buckets);
    AtSplit(buf, 0, HeaderBytes(idx) + sigs, count);
    AtSplit(buf, 0, HeaderBytes(idx), sigs);
  }

  lemma BucketBlockReads(buf: Bytes, p: nat, idx: FuzzyIndex)
    requires Fits(idx) && At(buf, p, ToLE(|idx.buckets|, 8)) && At(buf, p + 8, BucketsBytes(idx.buckets))
    ensures WordAt(buf, p, 8) == Ok(|idx.buckets|)
    ensures BucketsAt(buf, p + 8, |idx.buckets|, []) == Ok(idx.buckets)
  {
    Pow256Values();
    ReadsWord(buf, p, |idx.buckets|, 8);
    assert [] + idx.buckets == idx.buckets;
    ReadsBuckets(buf, p + 8, [], idx.buckets);
  }

  lemma BodyOfParts(buf: Bytes, h: Header, signatures: seq<SigEntry>, end: nat, count: nat, buckets: seq<Bucket>)
    requires HeaderAt(buf) == Ok(h) && SignaturesAt(buf, 64, h.leafCount, h.sigWidth) == Ok((signatures, end))
    requires WordAt(buf, end, 8) == Ok(count) && BucketsAt(buf, end + 8, count, []) == Ok(buckets)
    ensures ParseBody(buf) == Ok(FuzzyIndex(h.kind, h.bindingRoot, h.sigWidth, h.bands, h.rowsOrBits, signatures,
                                            buckets))
  {
    hide HeaderAt, SignaturesAt, WordAt, BucketsAt;
  }

  /** A printed body is parsed back, whatever bytes follow it. */
  lemma BodyParses(buf: Bytes, idx: FuzzyIndex)
    requires Fits(idx) && At(buf, 0, Body(idx))
    ensures HeaderAt(buf).Ok? && HeaderAt(buf).value.leafCount == |idx.signatures|
    ensures ParseBody(buf) == Ok(idx)
  {
    hide HeaderAt, SignaturesAt, WordAt, BucketsAt, ParseBody, Body, At, SignatureBytes, BucketsBytes, HeaderBytes,
         ToLE;
    var p := 64 + |SignatureBytes(idx.signatures)|;
    BodyLayout(buf, idx);
    ReadsHeader(buf, idx);
    ReadsSignatures(buf, 64, idx.signatures, idx.sigWidth);
    BucketBlockReads(buf, p, idx);
    BodyOfParts(buf, HeaderAt(buf).value, idx.signatures, p, |idx.buckets|, idx.buckets);
  }

  /** Round trip, for every index whose signatures can be held in memory at all. */
  lemma ParseOfPrint(H: Hasher, idx: FuzzyIndex)
    requires Fits(idx)
    ensures FromBytes(H, ToBytes(H, idx)) == if Allocatable(|idx.signatures|) then Ok(idx) else Err(CapacityOverflow)
  {
    var bytes := ToBytes(H, idx);
    assert bytes[..|bytes| - 32] == Body(idx) && bytes[|bytes| - 32..] == H(Body(idx));
    BodyParses(Body(idx), idx);
  }

  lemma PrintInjective(H: Hasher, x: FuzzyIndex, y: FuzzyIndex)
    requires Fits(x) && Fits(y) && ToBytes(H, x) == ToBytes(H, y)
    ensures x == y
  {
    var bytes := ToBytes(H, x);
    assert bytes[..|bytes| - 32] == Body(x) && bytes[..|bytes| - 32] == Body(y);
    BodyParses(Body(x), x);
    BodyParses(Body(y), y);
  }

  // ------------------------------------------------------------------------
  // Where the header's fields are
  // ------------------------------------------------------------------------

  lemma WordOfTwoBytes(v: u16)
    ensures ToLE(v, 2) == [v % 256, v / 256]
  {
    assert ToLE(v, 2) == [v % 256] + ToLE(v / 256, 1) && ToLE(v / 256, 1) == [v / 256 % 256] + ToLE(v / 256 / 256, 0);
  }

  lemma FourZeros()
    ensures ToLE(0, 4) == [0, 0, 0, 0]
  {
    assert ToLE(0, 4) == [0] + ToLE(0, 3) && ToLE(0, 3) == [0] + ToLE(0, 2);
    WordOfTwoBytes(0);
  }

  /** Bytes of the identity block: "ATSTRMIX", version 1, the kind's number, zeros, the root. */
  lemma IdentityLayout(idx: FuzzyIndex)
    ensures var b := IdentityBytes(idx);
            && b[..8] == [0x41, 0x54, 0x53, 0x54, 0x52, 0x4D, 0x49, 0x58] && b[8..10] == [1, 0]
            && b[10..12] == [match idx.kind case Minhash => 1 case Perceptual => 2 case Iscc => 3, 0]
            && b[12..16] == [0, 0, 0, 0] && b[16..48] == idx.bindingRoot
  {
    hide ToLE;
    WordOfTwoBytes(1);
    WordOfTwoBytes(KindCode(idx.kind));
    FourZeros();
    var b := IdentityBytes(idx);
    assert b == MAGIC + [1, 0] + [KindCode(idx.kind), 0] + [0, 0, 0, 0] + idx.bindingRoot;
  }

  lemma ShapeLayout(idx: FuzzyIndex)
    requires |idx.signatures| < 0x1_0000_0000_0000_0000
    ensures var b := ShapeBytes(idx);
            && FromLE(b[0..2]) == idx.sigWidth && FromLE(b[2..4]) == idx.bands && FromLE(b[4..6]) == idx.rowsOrBits
            && b[6..8] == [0, 0] && FromLE(b[8..16]) == |idx.signatures|
  {
    hide ToLE, FromLE, Pow256;
    Pow256Values();
    FromToLE(idx.sigWidth, 2);
    FromToLE(idx.bands, 2);
    FromToLE(idx.rowsOrBits, 2);
    FromToLE(|idx.signatures|, 8);
    WordOfTwoBytes(0);
    var b := ShapeBytes(idx);
    assert b[0..2] == ToLE(idx.sigWidth, 2) && b[2..4] == ToLE(idx.bands, 2) && b[4..6] == ToLE(idx.rowsOrBits, 2);
    assert b[6..8] == ToLE(0, 2) && b[8..16] == ToLE(|idx.signatures|, 8);
  }

  /** The printed file field by field: the header at its offsets, and at the end the digest of all
      that precedes it. */
  lemma PrintedLayout(H: Hasher, idx: FuzzyIndex)
    requires |idx.signatures| < 0x1_0000_0000_0000_0000
    ensures |ToBytes(H, idx)| >= 104
    ensures var b := ToBytes(H, idx);
            && b[..8] == [0x41, 0x54, 0x53, 0x54, 0x52, 0x4D, 0x49, 0x58] && b[8..10] == [1, 0]
            && b[10..12] == [match idx.kind case Minhash => 1 case Perceptual => 2 case Iscc => 3, 0]
            && b[12..16] == [0, 0, 0, 0] && b[16..48] == idx.bindingRoot
            && FromLE(b[48..50]) == idx.sigWidth && FromLE(b[50..52]) == idx.bands
            && FromLE(b[52..54]) == idx.rowsOrBits && b[54..56] == [0, 0] && FromLE(b[56..64]) == |idx.signatures|
            && b[|b| - 32..] == H(b[..|b| - 32])
  {
    hide IdentityBytes, ShapeBytes, SignatureBytes, BucketsBytes, ToLE, FromLE;
    var b, body := ToBytes(H, idx), Body(idx);
    assert b[..|b| - 32] == body && b[|b| - 32..] == H(body);
    IdentityLayout(idx);
    ShapeLayout(idx);
    var x, y := IdentityBytes(idx), ShapeBytes(idx);
    assert b[..48] == x && b[48..64] == y;
    assert b[..8] == x[..8] && b[8..10] == x[8..10] && b[10..12] == x[10..12] && b[12..16] == x[12..16];
    assert b[16..48] == x[16..48] && b[48..50] == y[0..2] && b[50..52] == y[2..4] && b[52..54] == y[4..6];
    assert b[54..56] == y[6..8] && b[56..64] == y[8..16];
  }

  /** How a file is refused before any record is read: too short for the digest, the digest wrong,
      the magic wrong, a version other than 1, a kind other than 1, 2 and 3, in this order. */
  lemma ParserRefuses(H: Hasher, bytes: Bytes)
    ensures |bytes| < 32 ==> FromBytes(H, bytes) == Err(Truncated(|bytes|, 32 - |bytes|))
    ensures |bytes| >= 32 && H(bytes[..|bytes| - 32]) != bytes[|bytes| - 32..] ==>
              FromBytes(H, bytes) == Err(TrailerMismatch)
    ensures |bytes| >= 44 && H(bytes[..|bytes| - 32]) == bytes[|bytes| - 32..] ==>
              var version: nat := bytes[8] as nat + 256 * bytes[9] as nat;
              var kind: nat := bytes[10] as nat + 256 * bytes[11] as nat;
              if bytes[..8] != [0x41, 0x54, 0x53, 0x54, 0x52, 0x4D, 0x49, 0x58] then
                FromBytes(H, bytes) == Err(BadMagic)
              else if version != 1 then FromBytes(H, bytes) == Err(UnsupportedVersion(version))
              else kind !in {1, 2, 3} ==> FromBytes(H, bytes) == Err(UnknownKind(kind))
  {
    if |bytes| >= 44 {
      var body := bytes[..|bytes| - 32];
      assert body[..8] == bytes[..8] && body[0..8] == body[..8];
      TwoByteWord(body, 8);
      TwoByteWord(body, 10);
    }
  }

  lemma TwoByteWord(buf: Bytes, pos: nat)
    requires pos + 2 <= |buf|
    ensures var v: nat := buf[pos] as nat + 256 * buf[pos + 1] as nat; WordAt(buf, pos, 2) == Ok(v)
  {
    var b := buf[pos..pos + 2];
    assert b[1..][1..] == [];
    assert FromLE(b[1..]) == b[1] + 256 * FromLE(b[1..][1..]);
  }

  // ------------------------------------------------------------------------
  // The panic
  // ------------------------------------------------------------------------

  lemma {:induction false} WordsNeverOverflow(buf: Bytes, pos: nat, n: nat)
    ensures WordsAt(buf, pos, n) != Err(CapacityOverflow)
    decreases n
  {
    if n > 0 {
      WordsNeverOverflow(buf, pos + 8, n - 1);
    }
  }

  lemma {:induction false} SignaturesNeverOverflow(buf: Bytes, pos: nat, count: nat, width: nat)
    ensures SignaturesAt(buf, pos, count, width) != Err(CapacityOverflow)
    decreases count
  {
    if count > 0 {
      WordsNeverOverflow(buf, pos + 8, width);
      SignaturesNeverOverflow(buf, pos + 8 + 8 * width, count - 1, width);
    }
  }

  lemma BucketNeverOverflows(buf: Bytes, pos: nat)
    ensures BucketAt(buf, pos) != Err(CapacityOverflow)
  {
    if WordAt(buf, pos + 10, 4).Ok? {
      WordsNeverOverflow(buf, pos + 14, WordAt(buf, pos + 10, 4).value);
    }
  }

  lemma {:induction false} BucketsNeverOverflow(buf: Bytes, pos: nat, count: nat, acc: seq<Bucket>)
    ensures BucketsAt(buf, pos, count, acc) != Err(CapacityOverflow)
    decreases count
  {
    hide BucketAt, Put;
    if count > 0 {
      BucketNeverOverflows(buf, pos);
      if BucketAt(buf, pos).Ok? {
        var b := BucketAt(buf, pos).value;
        BucketsNeverOverflow(buf, pos + 14 + 8 * |b.members|, count - 1, Put(acc, b.key, b.members));
      }
    }
  }

  lemma BodyNeverOverflows(buf: Bytes)
    ensures HeaderAt(buf) != Err(CapacityOverflow) && ParseBody(buf) != Err(CapacityOverflow)
  {
    assert HeaderAt(buf) != Err(CapacityOverflow);
    hide HeaderAt, SignaturesAt, BucketsAt;
    if HeaderAt(buf).Ok? {
      var h := HeaderAt(buf).value;
      SignaturesNeverOverflow(buf, 64, h.leafCount, h.sigWidth);
      if SignaturesAt(buf, 64, h.leafCount, h.sigWidth).Ok? {
        var end := SignaturesAt(buf, 64, h.leafCount, h.sigWidth).value.1;
        if WordAt(buf, end, 8).Ok? {
          BucketsNeverOverflow(buf, end + 8, WordAt(buf, end, 8).value, []);
        }
      }
    }
  }

  /** The file's digest matches, its header parses, and the header declares more signatures
      of 32 bytes than an address space of 2^63 - 1 bytes holds. */
  predicate DeclaresTooMany(H: Hasher, bytes: Bytes) {
    && |bytes| >= 32
    && var body := bytes[..|bytes| - 32];
       && bytes == body + H(body)
       && HeaderAt(body).Ok?
       && HeaderAt(body).value.leafCount * 32 > 0x7FFF_FFFF_FFFF_FFFF
  }

  /** Exactly such files make the parser panic. */
  lemma ParserPanicsIff(H: Hasher, bytes: Bytes)
    ensures FromBytes(H, bytes) == Err(CapacityOverflow) <==> DeclaresTooMany(H, bytes)
  {
    if |bytes| >= 32 {
      var body := bytes[..|bytes| - 32];
      assert bytes == body + bytes[|bytes| - 32..];
      BodyNeverOverflows(body);
    }
  }

  /** Such a file of 96 bytes: a header that declares 2^60 signatures, and its digest. */
  lemma HugeCountPanics(H: Hasher, root: Digest) returns (bytes: Bytes)
    ensures |bytes| == 96 && FromBytes(H, bytes) == Err(CapacityOverflow)
  {
    var idx := FuzzyIndex(Minhash, root, 0, 0, 0, seq(0x1000_0000_0000_0000, _ => SigEntry(0, [])), []);
    var body := HeaderBytes(idx);
    bytes := body + H(body);
    assert bytes[..|bytes| - 32] == body;
    assert At(body, 0, HeaderBytes(idx));
    ReadsHeader(body, idx);
    ParserPanicsIff(H, bytes);
  }
}
