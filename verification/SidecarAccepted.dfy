/** The sidecar parser on arbitrary bytes: what an accepted file must look like, and exactly
    which accepted files print back to themselves. */
module SidecarAccepted {
  import opened Basics
  import opened Words
  import opened Banding
  import opened Sidecar
  import opened SidecarFormat

  lemma AtJoin(buf: Bytes, pos: nat, a: Bytes, b: Bytes)
    requires At(buf, pos, a) && At(buf, pos + |a|, b)
    ensures At(buf, pos, a + b)
  {
    assert buf[pos..pos + |a + b|] == buf[pos..pos + |a|] + buf[pos + |a|..pos + |a| + |b|];
  }

  lemma WordWasPrinted(buf: Bytes, pos: nat, n: nat)
    requires WordAt(buf, pos, n).Ok?
    ensures At(buf, pos, ToLE(WordAt(buf, pos, n).value, n))
  {
    ToFromLE(buf[pos..pos + n]);
  }

  lemma {:induction false} WordsWerePrinted(buf: Bytes, pos: nat, n: nat)
    requires pos <= |buf| && WordsAt(buf, pos, n).Ok?
    ensures At(buf, pos, WordBytes(WordsAt(buf, pos, n).value))
    decreases n
  {
    if n > 0 {
      WordWasPrinted(buf, pos, 8);
      WordsWerePrinted(buf, pos + 8, n - 1);
      var w, rest := WordAt(buf, pos, 8).value, WordsAt(buf, pos + 8, n - 1).value;
      AtJoin(buf, pos, ToLE(w, 8), WordBytes(rest));
      assert ([w] + rest)[1..] == rest;
    }
  }

  /** Exactly the declared number of signatures, each of the declared width, is read; the
      bytes consumed are the bytes those signatures print to. */
  lemma {:induction false} SignaturesWerePrinted(buf: Bytes, pos: nat, count: nat, width: nat)
    requires pos <= |buf| && SignaturesAt(buf, pos, count, width).Ok?
    ensures var (s, end) := SignaturesAt(buf, pos, count, width).value;
            && |s| == count && (forall i :: 0 <= i < |s| ==> |s[i].sig| == width)
            && At(buf, pos, SignatureBytes(s)) && end == pos + |SignatureBytes(s)|
    decreases count
  {
    hide ToLE, FromLE, Pow256, WordAt, WordsAt, WordBytes;
    if count > 0 {
      Pow256Values();
      WordWasPrinted(buf, pos, 8);
      WordsWerePrinted(buf, pos + 8, width);
      var row, sig := WordAt(buf, pos, 8).value, WordsAt(buf, pos + 8, width).value;
      AtJoin(buf, pos, ToLE(row, 8), WordBytes(sig));
      SignaturesWerePrinted(buf, pos + 8 + 8 * width, count - 1, width);
      var rest := SignaturesAt(buf, pos + 8 + 8 * width, count - 1, width).value.0;
      AtJoin(buf, pos, ToLE(row, 8) + WordBytes(sig), SignatureBytes(rest));
      assert ([SigEntry(row, sig)] + rest)[1..] == rest;
    }
  }

  lemma BucketWasPrinted(buf: Bytes, pos: nat)
    requires BucketAt(buf, pos).Ok?
    ensures At(buf, pos, BucketBytes(BucketAt(buf, pos).value))
    ensures |BucketAt(buf, pos).value.members| < 0x1_0000_0000
  {
    Pow256Values();
    var b := BucketAt(buf, pos).value;
    WordWasPrinted(buf, pos, 2);
    WordWasPrinted(buf, pos + 2, 8);
    WordWasPrinted(buf, pos + 10, 4);
    WordsWerePrinted(buf, pos + 14, |b.members|);
    AtJoin(buf, pos, ToLE(b.key.0, 2), ToLE(b.key.1, 8));
    AtJoin(buf, pos, ToLE(b.key.0, 2) + ToLE(b.key.1, 8), ToLE(|b.members|, 4));
    AtJoin(buf, pos, ToLE(b.key.0, 2) + ToLE(b.key.1, 8) + ToLE(|b.members|, 4), WordBytes(b.members));
  }

  /** The bucket records as they stand in the file, and the position after them. */
  function RecordsAt(buf: Bytes, pos: nat, count: nat): ParseResult<(seq<Bucket>, nat)>
    decreases count
  {
    if count == 0 then Ok(([], pos))
    else
      var b :- BucketAt(buf, pos);
      var rest :- RecordsAt(buf, pos + 14 + 8 * |b.members|, count - 1);
      Ok(([b] + rest.0, rest.1))
  }

  function PutAll(acc: seq<Bucket>, records: seq<Bucket>): seq<Bucket>
    decreases |records|
  {
    if records == [] then acc else PutAll(Put(acc, records[0].key, records[0].members), records[1..])
  }

  lemma {:induction false} BucketsAreRecordsPut(buf: Bytes, pos: nat, count: nat, acc: seq<Bucket>)
    ensures RecordsAt(buf, pos, count).Ok? <==> BucketsAt(buf, pos, count, acc).Ok?
    ensures RecordsAt(buf, pos, count).Ok? ==>
              |RecordsAt(buf, pos, count).value.0| == count
              && BucketsAt(buf, pos, count, acc) == Ok(PutAll(acc, RecordsAt(buf, pos, count).value.0))
    decreases count
  {
    hide BucketAt, Put;
    if count > 0 && BucketAt(buf, pos).Ok? {
      var b := BucketAt(buf, pos).value;
      BucketsAreRecordsPut(buf, pos + 14 + 8 * |b.members|, count - 1, Put(acc, b.key, b.members));
      if RecordsAt(buf, pos, count).Ok? {
        var rest := RecordsAt(buf, pos + 14 + 8 * |b.members|, count - 1).value.0;
        assert ([b] + rest)[1..] == rest;
      }
    }
  }

  lemma {:induction false} PutAllSpec(acc: seq<Bucket>, records: seq<Bucket>)
    requires AscendingKeys(acc)
    ensures AscendingKeys(PutAll(acc, records)) && |PutAll(acc, records)| <= |acc| + |records|
    ensures forall b :: b in PutAll(acc, records) ==> b in acc || b in records
    ensures AscendingKeys(acc + records) ==> PutAll(acc, records) == acc + records
    decreases |records|
  {
    hide Put, Lookup, KeyLess;
    if records == [] {
      assert acc + records == acc;
    } else {
      var b := records[0];
      PutSpec(acc, b.key, b.members);
      PutAllSpec(Put(acc, b.key, b.members), records[1..]);
      assert records == [b] + records[1..];
      if AscendingKeys(acc + records) {
        forall i | 0 <= i < |acc|
          ensures KeyLess(acc[i].key, b.key)
        {
          assert acc[i] == (acc + records)[i] && b == (acc + records)[|acc|];
        }
        PutAppends(acc, b.key, b.members);
        assert acc + records == (acc + [b]) + records[1..];
      }
    }
  }

  lemma FirstRecord(buf: Bytes, pos: nat, count: nat) returns (b: Bucket, rest: seq<Bucket>, end: nat)
    requires count > 0 && RecordsAt(buf, pos, count).Ok?
    ensures BucketAt(buf, pos) == Ok(b) && pos + 14 + 8 * |b.members| <= |buf|
    ensures RecordsAt(buf, pos + 14 + 8 * |b.members|, count - 1) == Ok((rest, end))
    ensures RecordsAt(buf, pos, count) == Ok(([b] + rest, end))
  {
    b := BucketAt(buf, pos).value;
    rest := RecordsAt(buf, pos + 14 + 8 * |b.members|, count - 1).value.0;
    end := RecordsAt(buf, pos, count).value.1;
  }

  /** A record in front of a printed block makes a longer one. */
  lemma RecordInFront(buf: Bytes, pos: nat, b: Bucket, rest: seq<Bucket>)
    requires At(buf, pos, BucketBytes(b)) && At(buf, pos + 14 + 8 * |b.members|, BucketsBytes(rest))
    ensures At(buf, pos, BucketsBytes([b] + rest))
    ensures |BucketsBytes([b] + rest)| == 14 + 8 * |b.members| + |BucketsBytes(rest)|
  {
    AtJoin(buf, pos, BucketBytes(b), BucketsBytes(rest));
    assert ([b] + rest)[1..] == rest;
  }

  lemma NoRecords(buf: Bytes, pos: nat)
    requires pos <= |buf|
    ensures RecordsAt(buf, pos, 0) == Ok(([], pos)) && BucketsBytes([]) == [] && At(buf, pos, [])
  {
  }

  lemma {:induction false} RecordsWerePrinted(buf: Bytes, pos: nat, count: nat)
    requires pos <= |buf| && RecordsAt(buf, pos, count).Ok?
    ensures var (r, end) := RecordsAt(buf, pos, count).value;
            At(buf, pos, BucketsBytes(r)) && end == pos + |BucketsBytes(r)|
            && forall i :: 0 <= i < |r| ==> |r[i].members| < 0x1_0000_0000
    decreases count
  {
    hide *;
    if count == 0 {
      NoRecords(buf, pos);
    } else {
      var b, rest, end := FirstRecord(buf, pos, count);
      BucketWasPrinted(buf, pos);
      RecordsWerePrinted(buf, pos + 14 + 8 * |b.members|, count - 1);
      RecordInFront(buf, pos, b, rest);
    }
  }

  /** What the parser ignores: both reserved fields are zero, no bucket key is repeated or
      out of order, and nothing follows the last record. */
  ghost predicate Canonical(buf: Bytes) {
    && WordAt(buf, 12, 4) == Ok(0)
    && WordAt(buf, 54, 2) == Ok(0)
    && HeaderAt(buf).Ok?
    && var h := HeaderAt(buf).value;
       var sigs := SignaturesAt(buf, 64, h.leafCount, h.sigWidth);
       && sigs.Ok?
       && var count := WordAt(buf, sigs.value.1, 8);
          && count.Ok?
          && var records := RecordsAt(buf, sigs.value.1 + 8, count.value);
             records.Ok? && AscendingKeys(records.value.0) && records.value.1 == |buf|
  }

  /** The intermediate results of an accepting parse. */
  lemma AcceptedParts(buf: Bytes) returns (h: Header, end: nat, count: nat, records: seq<Bucket>)
    requires ParseBody(buf).Ok?
    ensures HeaderAt(buf) == Ok(h)
    ensures var x := ParseBody(buf).value;
            && x.sigWidth == h.sigWidth && |x.signatures| == h.leafCount
            && SignaturesAt(buf, 64, h.leafCount, h.sigWidth) == Ok((x.signatures, end))
            && end == 64 + |SignatureBytes(x.signatures)| && At(buf, 64, SignatureBytes(x.signatures))
            && (forall i :: 0 <= i < |x.signatures| ==> |x.signatures[i].sig| == x.sigWidth)
            && WordAt(buf, end, 8) == Ok(count)
            && RecordsAt(buf, end + 8, count).Ok? && RecordsAt(buf, end + 8, count).value.0 == records
            && |records| == count && x.buckets == PutAll([], records)
  {
    h := HeaderAt(buf).value;
    SignaturesWerePrinted(buf, 64, h.leafCount, h.sigWidth);
    end := SignaturesAt(buf, 64, h.leafCount, h.sigWidth).value.1;
    count := WordAt(buf, end, 8).value;
    BucketsAreRecordsPut(buf, end + 8, count, []);
    records := RecordsAt(buf, end + 8, count).value.0;
  }

  /** On any input that is accepted: the digest covers the body, the declared leaf count and
      width are those of the result, keys ascend, there are at most the declared number of
      buckets, and the result fits its fields, so it prints and parses again. */
  lemma AcceptedShape(H: Hasher, bytes: Bytes)
    requires FromBytes(H, bytes).Ok?
    ensures var x, body := FromBytes(H, bytes).value, bytes[..|bytes| - 32];
            && bytes == body + H(body)
            && WordAt(body, 56, 8) == Ok(|x.signatures|) && WordAt(body, 48, 2) == Ok(x.sigWidth)
            && WordAt(body, 64 + |SignatureBytes(x.signatures)|, 8).Ok?
            && |x.buckets| <= WordAt(body, 64 + |SignatureBytes(x.signatures)|, 8).value
            && Fits(x) && FromBytes(H, ToBytes(H, x)) == Ok(x)
  {
    var body := bytes[..|bytes| - 32];
    assert bytes == body + bytes[|bytes| - 32..];
    var h, end, count, records := AcceptedParts(body);
    AcceptedBucketsFit(body, end, count, records);
    assert count < 0x1_0000_0000_0000_0000 by {
      Pow256Values();
    }
    ParseOfPrint(H, FromBytes(H, bytes).value);
  }

  lemma AcceptedBucketsFit(buf: Bytes, end: nat, count: nat, records: seq<Bucket>)
    requires end + 8 <= |buf| && RecordsAt(buf, end + 8, count).Ok? && RecordsAt(buf, end + 8, count).value.0 == records
    requires |records| == count
    ensures var buckets := PutAll([], records);
            && AscendingKeys(buckets) && |buckets| <= count
            && forall i :: 0 <= i < |buckets| ==> |buckets[i].members| < 0x1_0000_0000
  {
    RecordsWerePrinted(buf, end + 8, count);
    PutAllSpec([], records);
    var buckets := PutAll([], records);
    forall i | 0 <= i < |buckets|
      ensures |buckets[i].members| < 0x1_0000_0000
    {
      assert buckets[i] in records;
    }
  }

  lemma HeaderWasPrinted(buf: Bytes, idx: FuzzyIndex)
    requires |idx.signatures| < 0x1_0000_0000_0000_0000
    requires HeaderAt(buf) == Ok(Header(idx.kind, idx.bindingRoot, idx.sigWidth, idx.bands, idx.rowsOrBits,
                                        |idx.signatures|))
    requires WordAt(buf, 12, 4) == Ok(0) && WordAt(buf, 54, 2) == Ok(0)
    ensures At(buf, 0, HeaderBytes(idx))
  {
    IdentityWasPrinted(buf, idx);
    ShapeWasPrinted(buf, idx);
    AtJoin(buf, 0, IdentityBytes(idx), ShapeBytes(idx));
  }

  lemma IdentityFields(buf: Bytes)
    requires HeaderAt(buf).Ok?
    ensures var h := HeaderAt(buf).value;
            && At(buf, 0, MAGIC) && WordAt(buf, 8, 2) == Ok(FORMAT_VER)
            && WordAt(buf, 10, 2) == Ok(KindCode(h.kind)) && At(buf, 16, h.bindingRoot)
  {
    hide FromLE, Pow256;
  }

  lemma IdentityWasPrinted(buf: Bytes, idx: FuzzyIndex)
    requires HeaderAt(buf).Ok? && HeaderAt(buf).value.kind == idx.kind
    requires HeaderAt(buf).value.bindingRoot == idx.bindingRoot
    requires WordAt(buf, 12, 4) == Ok(0)
    ensures At(buf, 0, IdentityBytes(idx))
  {
    hide At, ToLE, FromLE, Pow256, HeaderAt, WordAt, TakeAt;
    var a, b, c, d, e := MAGIC, ToLE(FORMAT_VER, 2), ToLE(KindCode(idx.kind), 2), ToLE(0, 4), idx.bindingRoot;
    IdentityFields(buf);
    WordWasPrinted(buf, 8, 2);
    WordWasPrinted(buf, 10, 2);
    WordWasPrinted(buf, 12, 4);
    AtJoin(buf, 0, a, b);
    AtJoin(buf, 0, a + b, c);
    AtJoin(buf, 0, a + b + c, d);
    AtJoin(buf, 0, a + b + c + d, e);
  }

  lemma ShapeWasPrinted(buf: Bytes, idx: FuzzyIndex)
    requires |idx.signatures| < 0x1_0000_0000_0000_0000
    requires HeaderAt(buf) == Ok(Header(idx.kind, idx.bindingRoot, idx.sigWidth, idx.bands, idx.rowsOrBits,
                                        |idx.signatures|))
    requires WordAt(buf, 54, 2) == Ok(0)
    ensures At(buf, 48, ShapeBytes(idx))
  {
    var f, g, h := ToLE(idx.sigWidth, 2), ToLE(idx.bands, 2), ToLE(idx.rowsOrBits, 2);
    var z, n := ToLE(0, 2), ToLE(|idx.signatures|, 8);
    WordWasPrinted(buf, 48, 2);
    WordWasPrinted(buf, 50, 2);
    WordWasPrinted(buf, 52, 2);
    WordWasPrinted(buf, 54, 2);
    WordWasPrinted(buf, 56, 8);
    AtJoin(buf, 48, f, g);
    AtJoin(buf, 48, f + g, h);
    AtJoin(buf, 48, f + g + h, z);
    AtJoin(buf, 48, f + g + h + z, n);
  }

  lemma FourPiecesMakeTheBuffer(buf: Bytes, a: Bytes, b: Bytes, c: Bytes, d: Bytes)
    requires At(buf, 0, a) && At(buf, |a|, b) && At(buf, |a| + |b|, c) && At(buf, |a| + |b| + |c|, d)
    requires |a| + |b| + |c| + |d| == |buf|
    ensures buf == a + b + c + d
  {
    AtJoin(buf, 0, a, b);
    AtJoin(buf, 0, a + b, c);
    AtJoin(buf, 0, a + b + c, d);
    assert buf[0..|buf|] == buf;
  }

  lemma CanonicalPrintsBack(buf: Bytes)
    requires ParseBody(buf).Ok? && Canonical(buf)
    ensures Body(ParseBody(buf).value) == buf
  {
    var x := ParseBody(buf).value;
    var h, end, count, records := AcceptedParts(buf);
    RecordsWerePrinted(buf, end + 8, count);
    assert x.buckets == records by {
      PutAllSpec([], records);
      assert [] + records == records;
    }
    HeaderWasPrinted(buf, x);
    WordWasPrinted(buf, end, 8);
    FourPiecesMakeTheBuffer(buf, HeaderBytes(x), SignatureBytes(x.signatures), ToLE(count, 8), BucketsBytes(records));
  }

  lemma RecordsStep(buf: Bytes, pos: nat, b: Bucket, rest: seq<Bucket>, end: nat)
    requires BucketAt(buf, pos) == Ok(b) && RecordsAt(buf, pos + 14 + 8 * |b.members|, |rest|) == Ok((rest, end))
    ensures RecordsAt(buf, pos, |rest| + 1) == Ok(([b] + rest, end))
  {
    hide BucketAt;
  }

  lemma {:induction false} PrintedRecords(buf: Bytes, pos: nat, buckets: seq<Bucket>)
    requires pos <= |buf| && At(buf, pos, BucketsBytes(buckets))
    requires forall i :: 0 <= i < |buckets| ==> |buckets[i].members| < 0x1_0000_0000
    ensures RecordsAt(buf, pos, |buckets|) == Ok((buckets, pos + |BucketsBytes(buckets)|))
    decreases |buckets|
  {
    hide *;
    if buckets == [] {
      NoRecords(buf, pos);
    } else {
      var b, rest := buckets[0], buckets[1..];
      ReadsFirstBucket(buf, pos, buckets);
      PrintedRecords(buf, pos + 14 + 8 * |b.members|, rest);
      RecordsStep(buf, pos, b, rest, pos + |BucketsBytes(buckets)|);
      assert buckets == [b] + rest;
    }
  }

  lemma PrintedIsCanonical(idx: FuzzyIndex)
    requires Fits(idx)
    ensures Canonical(Body(idx))
  {
    hide HeaderAt, SignaturesAt, WordAt, RecordsAt, BucketsAt, Body, At, SignatureBytes, BucketsBytes, IdentityBytes,
         ShapeBytes, ToLE;
    var buf, p := Body(idx), 64 + |SignatureBytes(idx.signatures)|;
    BodyLayout(buf, idx);
    ReadsHeader(buf, idx);
    AtSplit(buf, 0, IdentityBytes(idx), ShapeBytes(idx));
    ReadsIdentity(buf, idx);
    ReadsShape(buf, idx);
    ReadsSignatures(buf, 64, idx.signatures, idx.sigWidth);
    BucketBlockReads(buf, p, idx);
    PrintedRecords(buf, p + 8, idx.buckets);
  }

  /** Accepted bytes are what the parsed index prints to exactly when they are canonical; the
      parser itself does not ask for it. */
  lemma AcceptedPrintsBack(H: Hasher, bytes: Bytes)
    requires FromBytes(H, bytes).Ok?
    ensures ToBytes(H, FromBytes(H, bytes).value) == bytes <==> Canonical(bytes[..|bytes| - 32])
  {
    var x, body := FromBytes(H, bytes).value, bytes[..|bytes| - 32];
    AcceptedShape(H, bytes);
    if ToBytes(H, x) == bytes {
      assert body == Body(x);
      PrintedIsCanonical(x);
    }
    if Canonical(body) {
      CanonicalPrintsBack(body);
    }
  }

  /** Such files exist: whatever is appended to a printed body is accepted and dropped. */
  lemma TrailingBytesAccepted(H: Hasher, idx: FuzzyIndex, tail: Bytes)
    requires Fits(idx) && Allocatable(|idx.signatures|) && tail != []
    ensures var body := Body(idx) + tail;
            && FromBytes(H, body + H(body)) == Ok(idx)
            && ToBytes(H, idx) != body + H(body) && !Canonical(body)
  {
    hide Canonical, ParseBody, Body, HeaderAt;
    var body := Body(idx) + tail;
    var bytes := body + H(body);
    assert bytes[..|bytes| - 32] == body && bytes[|bytes| - 32..] == H(body);
    assert At(body, 0, Body(idx)) by {
      assert body[0..|Body(idx)|] == Body(idx);
    }
    BodyParses(body, idx);
    assert |ToBytes(H, idx)| < |bytes|;
    AcceptedPrintsBack(H, bytes);
  }
}
