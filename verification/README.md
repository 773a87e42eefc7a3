# Attestrum: a verified model of the proof engine and its indexes

Attestrum seals a corpus of documents into a manifest whose BLAKE3 Merkle root names it,
proves that a document is or is not in a sealed corpus, looks for near matches, and builds
its corpora, reports and stores so that the same input always gives the same bytes. This
project models the parts of it that carry those promises and proves the promises of the
model.

| Component | Modules |
|---|---|
| RFC 6962 Merkle layer | `Merkle`, `MerkleSoundness` |
| Hex keys | `Hex` |
| Exact proving, non-inclusion, removal | `Prove`, `ProofChecking`, `Removal` |
| Fuzzy sidecar index: banding, bytes, build, lookup | `Words`, `Banding`, `Sidecar`, `SidecarFormat`, `SidecarAccepted`, `FuzzyBuild`, `FuzzyProve`, `FuzzyAnswer`, `FuzzyEntry` |
| Near-duplicate clustering | `UnionFind`, `DedupSpec`, `DedupMeaning`, `Dedup` |
| Content-addressed store | `CasStore` |
| Corpus build | `Manifest`, `ManifestOrder`, `Pipeline`, `PipelineMeaning` |
| Corpus diff | `DiffSpec`, `Diff`, `DiffMeaning` |
| Contamination scan and its MinHash kernel | `Shingles`, `TextMinhash`, `Contamination`, `ContaminationText` |
| Bundle canonicalisation and its JSON bytes | `JsonText`, `JsonRead`, `Canonicalize`, `CanonicalMeaning` |
| Shared types, orders, sorting, binary search | `Basics`, `Ordering` |

How the model reads:

- A hash function is a parameter `H` from byte strings to 32 bytes, and its keyed mode a
  parameter `K`, about which nothing is assumed. Where the system relies on collision resistance, the statement is "the conclusion
  holds, or here are two different inputs with the same hash", and the inputs are among those
  the computation in question hashed.
- Loops and objects of the source are methods and classes here, each proved equal to a
  function of its inputs or old state; the lemmas are about those functions.
- Concurrency is interleaving. `CasStore` has one step per file-system call of every writer,
  with failures and crashes between any two; `Pipeline` lets a scheduler run any worker next
  and merge accumulators in any order.
- Jaccard estimates, containment and thresholds are exact rationals (`real`).
- Reading files, disks that fail, fingerprint kernels other than text MinHash and text
  normalization are parameters.

Where the code and its comments disagree the model follows the code, and the difference is a
result:

- MinHash recall is described as probabilistic (`crates/attestrum-index/src/query.rs:16-21`).
  The recheck counts the very components that are banded, so it is exact:
  `Banding.MinhashSharesThirteenBands`.
- Word boundaries in shingles are described as unambiguous
  (`crates/attestrum-decontaminate/src/shingle.rs:14-16`). They are up to separators inside
  words, which white-space normalization leaves in place: `Shingles.SameJoinIffSamePieces`
  says exactly when two windows hash the same input, `Shingles.BoundariesCanBeAmbiguous` is
  an instance.
- The sidecar parser is described as validating every field
  (`crates/attestrum-index/src/format.rs:217-219`). It ignores both reserved fields, repeated
  or unordered bucket keys and trailing bytes: `SidecarAccepted.AcceptedPrintsBack` says
  exactly which accepted files print back to themselves, `SidecarAccepted.TrailingBytesAccepted`
  has files that do not.
- The parser is described as returning an error on a short file rather than panicking
  (`crates/attestrum-index/src/format.rs:313-314`), and a bad sidecar as leading to the scan
  (`crates/attestrum-prove/src/lib.rs:836-842`). Room for the declared number of signatures is
  asked for before any is read (`crates/attestrum-index/src/format.rs:253`), and that panics
  when it exceeds the address space: `SidecarFormat.ParserPanicsIff` and
  `FuzzyProve.DispatchersPanicIff` say exactly when, `SidecarFormat.HugeCountPanics` is a file.
- The sidecar's rows are used as positions in the manifest
  (`crates/attestrum-prove/src/lib.rs:453`), but neither the parser nor the binding check looks at
  them, so a bound sidecar can make the lookup panic: `FuzzyEntry.LookupPanicsExactly` says when,
  `FuzzyEntry.StrayRowPanics` has a sidecar for any manifest, and by
  `FuzzyEntry.BuiltRowsAreInManifest` the builder writes none.
- A document and an item are described as a hit when their MinHash similarity reaches the near
  threshold (`crates/attestrum-decontaminate/src/detect.rs:80-83`). The code takes the similarity
  of a pair without a 5-gram in common to be zero, and does not look at a pair with no shingle in
  common at all (`crates/attestrum-decontaminate/src/detect.rs:136-160`), while the MinHash kernel
  makes one shingle of a text of one to four words. So the scan misses the same short text in
  document and item at every threshold up to one: `Contamination.HelloWorldMissed` is
  "hello world" against itself. `Contamination.MissedExactly` has the pairs missed at positive
  thresholds: with a text of fewer than five words, those whose similarity reaches the threshold,
  and any other only on a hash collision. `Contamination.ScanMeetsDocumentation` says that the
  report is the documented one exactly when no such pair is there. A threshold of zero or less
  misses more: `Contamination.EmptyDocumentIsMissed`.
- Sidecar and scan are described as giving the same distances
  (`crates/attestrum-prove/src/lib.rs:868-870`). They give the same answer for targets that
  decode exactly when every leaf the scan looks at can be read and fingerprinted. For an ISCC target
  that does not decode, the sidecar path is always the decode error, the scan only if some leaf can
  be fingerprinted and every earlier one is there and neither text nor image:
  `FuzzyProve.IsccUndecodableTarget`, with `FuzzyProve.UndecodableDiffers` an instance where the
  two differ. The root that binds a sidecar to a manifest covers ids and not modalities:
  `FuzzyProve.ForeignSidecarCollision`, `FuzzyProve.ChangedModalityDiffers`.
- Stripping is described as keeping arrays and objects what they are
  (`crates/attestrum-attest/src/canonicalize.rs:235-236`). The code makes null of both, so a
  stripped array, object or null cannot be told apart: `Canonicalize.CanonicalFormsAgree`.
- Clusters are described as sorted by size and first id
  (`crates/attestrum-dedup/src/cluster.rs:45`). With repeated document ids two different
  clusters may tie, and then hash-map order decides: `DedupSpec.ReportUniqueIff` says exactly
  when the report is determined, `DedupSpec.TiesLeaveOrderOpen` is a tie.

## Model

| member | source | states |
|---|---|---|
| Merkle.SplitIsPowerOfTwo | crates/attestrum-merkle/src/lib.rs:102-137 | the split point of section 2.1 of RFC 6962 is the largest power of two strictly below n |
| Merkle.RfcDefinitions | crates/attestrum-merkle/src/lib.rs:74-137 | the root of two or more leaves is the hash of a one byte, the left half's root and the right half's, split at a power of two k with k < n <= 2k; of one leaf that of a zero byte and the leaf; of none that of nothing; and PATH is as section 2.1.1 of RFC 6962 defines it |
| Merkle.BuildNextLevel | crates/attestrum-merkle/src/lib.rs:123-134 | the pairing loop hashes adjacent nodes and carries a lone last node up unchanged |
| Merkle.NextLevelKeepsTreeHash | crates/attestrum-merkle/src/lib.rs:117-137 | taking the next level does not change the recursive tree hash, for any number of nodes |
| Merkle.MerkleRoot | crates/attestrum-merkle/src/lib.rs:117-137 | the level-by-level carry-up loop computes MTH of section 2.1 of RFC 6962 for every list, the empty one included |
| Merkle.NextLevelKeepsPath | crates/attestrum-merkle/src/lib.rs:299-318 | one level of the walk contributes exactly the sibling, or nothing, in front of the path of the next level |
| Merkle.AuditPath | crates/attestrum-merkle/src/lib.rs:285-320 | the walk returns PATH(m, D) of section 2.1.1 of RFC 6962, element for element, or the out-of-bounds error |
| Merkle.ClimbWithSibling | crates/attestrum-merkle/src/lib.rs:358-376 | where a node has a sibling, one step of the climb consumes one path element and moves the root recomputation up one level; without an element left it fails |
| Merkle.ClimbWithoutSibling | crates/attestrum-merkle/src/lib.rs:358-376 | where a node has no sibling, one step of the climb leaves hash and path as they are |
| Merkle.VerifyAuditPath | crates/attestrum-merkle/src/lib.rs:341-384 | the bottom-up verifier accepts exactly when the top-down recomputation along PATH's recursion reaches the root, for any claimed index and size |
| Merkle.AuditPathLength | crates/attestrum-merkle/src/lib.rs:285-320 | the length of an audit path is determined by index and size |
| Merkle.AuditPathIsShort | crates/attestrum-merkle/src/lib.rs:265-320 | an audit path has at most ceil(log2 n) elements |
| Merkle.VerifierPathLength | crates/attestrum-merkle/src/lib.rs:341-384 | the verifier reaches a root for exactly one path length per index and size, and so rejects every path of any other length |
| Merkle.AuditPathAccepted | crates/attestrum-merkle/src/lib.rs:285-384 | the generated path is accepted for its leaf, index and size |
| MerkleSoundness.InputsUnambiguous | crates/attestrum-merkle/src/lib.rs:74-100 | the 0x00 and 0x01 prefixes and fixed widths keep leaf, node and empty inputs apart and determine their parts |
| MerkleSoundness.RootCollision | crates/attestrum-merkle/src/lib.rs:85-137 | equal roots mean equal leaf lists, also of different lengths, or the function computes a collision between the two trees' hashed inputs |
| MerkleSoundness.InclusionCollision | crates/attestrum-merkle/src/lib.rs:341-384 | acceptance against the root of D, for any claimed index and size, puts the leaf in D; for the true size it is the leaf at that index and the path is the audit path itself; otherwise a collision is computed |
| MerkleSoundness.EndsOfTree | crates/attestrum-merkle/src/lib.rs:341-384 | a proof for index zero of any claimed size is of the first leaf, one for the last index of the last leaf, unless the walk computes a collision |
| MerkleSoundness.SuccessiveIndices | crates/attestrum-merkle/src/lib.rs:341-384 | proofs for successive indices of one claimed size, whatever it is, are of successive leaves, unless a walk computes a collision |
| Hex.EncodeLoop | crates/attestrum-core/src/hex.rs:9-16 | the loop writes two lowercase digits per byte, high nibble first |
| Hex.DecodeLoop | crates/attestrum-core/src/hex.rs:19-34 | the loop decodes pair by pair and reports odd length or the first bad digit |
| Hex.DecodeOfEncode | crates/attestrum-core/src/hex.rs:9-34 | decoding an encoding gives the bytes back |
| Hex.Decode32OfEncode | crates/attestrum-core/src/hex.rs:37-53 | the same for 32-byte digests |
| Hex.DecodeAccepts | crates/attestrum-core/src/hex.rs:19-34 | exactly the even-length hex texts decode, and re-encoding gives the text in lower case |
| Hex.DecodeReports | crates/attestrum-core/src/hex.rs:19-53 | a text fails to decode for its odd length or else for its first character that is no hex digit, and to a digest also for any length but 64 |
| Hex.EncodePreservesOrder | crates/attestrum-core/src/hex.rs:9-16 | byte order of digests and text order of their hex agree, in both directions, at any lengths |
| Prove.AdjacencyIsExact | crates/attestrum-merkle/src/lib.rs:244-263 | on an ascending list, duplicates allowed, the search places the target between its neighbours, and finds it if and only if it occurs |
| Prove.PlacedIsAbsent | crates/attestrum-merkle/src/lib.rs:244-263 | a target placed but not found occurs nowhere in the list |
| Prove.HitsCountOccurrences | crates/attestrum-prove/src/lib.rs:583-587 | the rows hit are as many as the column's occurrences of the target |
| Prove.ExactMatchIsAHit | crates/attestrum-prove/src/lib.rs:577-612 | a reported match is a row in bounds whose named column holds the target, SHA-256 only when no BLAKE3 row matches |
| Prove.ExactProvingDecides | crates/attestrum-prove/src/lib.rs:397-434 | a BLAKE3 target gives inclusion iff it occurs once, non-inclusion iff it does not occur in a non-empty manifest, and Ambiguous(n) iff it occurs n >= 2 times |
| Prove.Blake3ProvesItsRow | crates/attestrum-prove/src/lib.rs:408-561 | a BLAKE3 target that occurs once is proved by the inclusion proof of the row that holds it, given field by field |
| Prove.Sha256ProvingDecides | crates/attestrum-prove/src/lib.rs:422-434 | a SHA-256 target gives the inclusion proof of the row that holds it iff it occurs once, its own refusal iff it does not occur, and Ambiguous(n) if it occurs n >= 2 times |
| Prove.BundleProvingDecides | crates/attestrum-prove/src/lib.rs:408-421 | a bundle fails on hex that does not decode, BLAKE3 first; then the BLAKE3 count decides, and the SHA-256 count only where that is zero; where both are zero it is the BLAKE3 target |
| Prove.ExactProvingNeverPanics | crates/attestrum-prove/src/lib.rs:397-434 | no panicking arm is taken for any exact target on any manifest |
| ProofChecking.InclusionComplete | crates/attestrum-prove/src/lib.rs:397-561 | an emitted inclusion proof passes the check against the manifest's root, for a row that holds the target in the column its evidence names |
| ProofChecking.InclusionProofCollision | crates/attestrum-attest/src/predicate.rs:187-221 | a checked inclusion proof against the root of D shows its leaf in D, at its index for the true size, or a collision is computed |
| ProofChecking.NonInclusionComplete | crates/attestrum-prove/src/lib.rs:1256-1431 | on a sorted manifest the predicate for an absent digest passes validate and every neighbour check, with lowercase-hex keys strictly bracketing the query in each of the three boundary cases |
| ProofChecking.NonInclusionCollision | crates/attestrum-attest/src/predicate.rs:327-358 | a predicate that passes the checks against the root of an ascending list, whatever size it claims, shows the query is not in the list, or a collision is computed |
| Removal.RemovalDecides | crates/attestrum-remove/src/evidence.rs:38-83 | removal succeeds exactly when the target occurs once before and never in a non-empty after; every failing combination has its own error |
| Removal.ReportChecks | crates/attestrum-remove/src/evidence.rs:38-83 | a report is of the target: its inclusion half names the row of before that holds it, its other half has the target's hex as query over after, each with its manifest's size, and both pass their checks against the two roots |
| Banding.BandMinhashLoop | crates/attestrum-index/src/query.rs:32-50 | the loop with its scratch buffer yields, per band, the hash of its four permutations |
| Banding.BandHamming64Loop | crates/attestrum-index/src/query.rs:88-96 | the loop yields the eight bytes of the word under consecutive band ids |
| Banding.BandIsccLoop | crates/attestrum-index/src/query.rs:127-138 | the loop yields the hashes of five consecutive byte ranges that cover the body |
| Banding.MinhashKeysMean | crates/attestrum-index/src/query.rs:32-50 | signatures share a key exactly at a band whose four components are equal, or hash to the same eight bytes |
| Banding.Hamming64KeysMean | crates/attestrum-index/src/query.rs:88-96 | words share a key exactly where they have the same byte |
| Banding.PerceptualKeysMean | crates/attestrum-index/src/query.rs:98-107 | image signatures share a key exactly where the same hash of both has the same byte |
| Banding.IsccKeysMean | crates/attestrum-index/src/query.rs:127-138 | bodies of one length share a key exactly where the same fifth is equal, or hashes to the same eight bytes |
| Banding.PackedWords | crates/attestrum-index/src/query.rs:140-153 | word k of a packed body is bytes 8k to 8k + 7, little-endian, the last from what is left |
| Banding.MatchesCounts | crates/attestrum-prove/src/lib.rs:769-774 | the matches counted are the positions at which the signatures agree |
| Words.BitDistanceCounts | crates/attestrum-prove/src/lib.rs:756-767 | the bit distance of two words is the number of bit positions at which they differ |
| Words.HammingCounts | crates/attestrum-prove/src/lib.rs:706-767 | the distance of two byte strings is the number of bits at which they differ |
| Banding.MinhashSharesThirteenBands | crates/attestrum-index/src/query.rs:16-50 | signatures at 850000 ppm or more share at least 13 of the 32 band keys |
| Banding.MinhashRecall | crates/attestrum-prove/src/lib.rs:769-774 | signatures at the threshold share a band key |
| Banding.Hamming64Recall | crates/attestrum-index/src/query.rs:64-96 | 64-bit hashes at distance at most 7 share a band key |
| Banding.PerceptualRecall | crates/attestrum-index/src/query.rs:98-107 | image signatures of which either hash is within the threshold share a band key |
| Banding.IsccRecall | crates/attestrum-index/src/query.rs:122-138 | bodies of any equal length at distance at most 4 share a band key |
| Banding.HammingOfPacked | crates/attestrum-index/src/query.rs:140-153 | distance over packed bodies of equal length is distance over the bodies |
| Sidecar.FromPartsLoop | crates/attestrum-index/src/format.rs:104-136 | the width check, the row sort and the per-bucket sort and deduplication, as one function of the parts |
| Sidecar.SignatureFinds | crates/attestrum-index/src/format.rs:162-167 | on rows in strict order the binary search returns a row's signature exactly when it has one |
| Sidecar.CandidatesLoop | crates/attestrum-index/src/format.rs:173-181 | the loop over the keys computes the candidate rows |
| Sidecar.CandidatesSpec | crates/attestrum-index/src/format.rs:173-181 | candidates ascend without repetition and are exactly the members of the queried buckets |
| SidecarFormat.ToBytesLoop | crates/attestrum-index/src/format.rs:185-215 | the appends produce header, signatures, buckets and the digest of all of it |
| SidecarFormat.PrintedLayout | crates/attestrum-index/src/format.rs:185-215 | a printed file has the magic, version 1, the kind's number 1, 2 or 3, the root, the four shape fields and zeros at their offsets, and ends in the digest of what precedes |
| SidecarFormat.Cursor.Take | crates/attestrum-index/src/format.rs:325-335 | a read stays within the buffer, or fails with the missing byte count and does not move |
| SidecarFormat.Cursor.Word | crates/attestrum-index/src/format.rs:337-352 | a word is the little-endian value of the next bytes |
| SidecarFormat.FromBytesLoop | crates/attestrum-index/src/format.rs:220-285 | the cursor-driven parser computes the recursive description of the format, errors and the capacity panic included, and never leaves the body |
| SidecarFormat.ParserRefuses | crates/attestrum-index/src/format.rs:220-250 | a file is refused, in this order, for its length, its digest, its magic, a version other than 1, a kind other than 1, 2 and 3 |
| SidecarFormat.ParserPanicsIff | crates/attestrum-index/src/format.rs:220-262 | the parser panics if and only if the digest matches, the header parses and its leaf count times 32 bytes exceeds 2^63 - 1 |
| SidecarFormat.HugeCountPanics | crates/attestrum-index/src/format.rs:251-253 | a file of 96 bytes on which it does |
| SidecarFormat.ParseOfPrint | crates/attestrum-index/src/format.rs:185-285 | every index whose counts fit their fields is parsed back from its bytes, if room for its signatures can be addressed at all |
| SidecarFormat.PrintInjective | crates/attestrum-index/src/format.rs:185-215 | different such indexes have different bytes |
| Sidecar.FromPartsSpec | crates/attestrum-index/src/format.rs:104-136 | from_parts fails iff some signature lacks the declared width, with the first such width; else it keeps every field, the signatures as a multiset in row order, the bucket keys in order and each bucket's member set, ascending |
| Sidecar.FromPartsIgnoresOrder | crates/attestrum-index/src/format.rs:100-136 | neither the insertion order of signatures with distinct rows nor that of bucket members reaches the index |
| SidecarAccepted.AcceptedShape | crates/attestrum-index/src/format.rs:220-285 | for any accepted input the digest covers the body, declared counts and widths are those of the result, and the result prints and parses again |
| SidecarAccepted.AcceptedPrintsBack | crates/attestrum-index/src/format.rs:220-285 | accepted bytes are what their index prints to if and only if reserved fields are zero, bucket keys ascend strictly and nothing follows the last record |
| SidecarAccepted.TrailingBytesAccepted | crates/attestrum-index/src/format.rs:262-284 | bytes appended to a printed body are accepted and dropped, for every index and every tail |
| FuzzyBuild.GatherAll | crates/attestrum-index/src/build.rs:75-151 | one pass routes every leaf's contribution to each sub-index, and fails exactly when some fingerprintable leaf is missing |
| FuzzyBuild.AccumulatedSpec | crates/attestrum-index/src/build.rs:85-151 | after n rows the signatures are those of the contributing rows, and each key's bucket lists exactly the contributing rows that have the key |
| FuzzyBuild.BuiltHeader | crates/attestrum-index/src/build.rs:153-200 | an index is of its kind and bound to the manifest's root, with 128 words in 32 bands of 4, two words in 16 bands of 8, or five bands and the width all its ISCC signatures have |
| FuzzyBuild.Hex8Means | crates/attestrum-index/src/query.rs:74-83 | a perceptual hash decodes iff it is eight pairs of hex digits, of which a first may be a plus sign that counts as zero, to what the pairs decode to |
| FuzzyBuild.WriteSidecar | crates/attestrum-index/src/build.rs:153-200 | a sidecar is the printed index of its accumulator, or the width error |
| FuzzyBuild.BuildAll | crates/attestrum-index/src/build.rs:75-207 | success leaves all three sidecars of this manifest; an unreadable leaf changes none; the only other error is of ISCC widths, and leaves the first two sidecars written and that one as it was |
| FuzzyBuild.WidthErrors | crates/attestrum-index/src/build.rs:153-200 | MinHash and perceptual widths always fit; the ISCC build fails if and only if two of its signatures differ in width or one is of 2^16 words |
| FuzzyProve.ScanLoop | crates/attestrum-prove/src/lib.rs:895-929 | the exhaustive loop the dispatchers share stops at the first failing leaf and otherwise keeps the best row |
| FuzzyProve.ScanIsFirstBest | crates/attestrum-prove/src/lib.rs:895-929 | the scan's answer is the first row with the best qualifying score, or none |
| FuzzyProve.FoldRangeIsFirstBest | crates/attestrum-prove/src/lib.rs:860-929 | updating only on strict improvement keeps the first of equally good rows |
| FuzzyProve.IndexedLoop | crates/attestrum-prove/src/lib.rs:868-893 | the fast path folds the candidates' stored signatures |
| FuzzyProve.SkippingKeepsBest | crates/attestrum-prove/src/lib.rs:860-929 | visiting only an ascending list of rows that misses no qualifying one gives the same row and score |
| FuzzyAnswer.MinhashAnswer | crates/attestrum-prove/src/lib.rs:1160-1226 | by a built sidecar, or by a scan that has every text leaf, the MinHash dispatcher finds nothing iff every text agrees with the target in fewer than 109 of 128 positions, and else answers the first row that agrees in the most, with that number in parts per million |
| FuzzyAnswer.PerceptualAnswer | crates/attestrum-prove/src/lib.rs:931-1011 | the perceptual one answers the first row whose nearer hash differs from the target's in the fewest bits, if those are at most six |
| FuzzyAnswer.IsccAnswer | crates/attestrum-prove/src/lib.rs:860-929 | the ISCC one, for a target that decodes and bodies of its length, the first row whose body differs in the fewest bits, if those are at most four |
| FuzzyAnswer.MinhashScanFails | crates/attestrum-prove/src/lib.rs:1160-1226 | a scan ends with the error of the first text leaf it cannot have: missing from the store, or not to be fingerprinted |
| FuzzyAnswer.PerceptualScanFails | crates/attestrum-prove/src/lib.rs:931-1011 | the same for image leaves, or hashes that are not hex |
| FuzzyAnswer.IsccScanFails | crates/attestrum-prove/src/lib.rs:895-929 | the same for leaves of any modality, or bodies that do not decode or differ in length |
| FuzzyAnswer.NoStoreNoAnswer | crates/attestrum-prove/src/lib.rs:789-798 | without a store every fuzzy target is refused |
| FuzzyProve.BuiltIndexLoads | crates/attestrum-prove/src/lib.rs:843-858 | a sidecar written by the builder is loaded and bound to its manifest |
| FuzzyProve.BindingCollision | crates/attestrum-prove/src/lib.rs:843-858 | a sidecar that passes the binding check was built over this very sequence of document ids, or a collision is computed |
| FuzzyProve.MinhashFastPathIsScan | crates/attestrum-prove/src/lib.rs:1160-1226 | with a built sidecar the MinHash dispatcher answers as the scan does — same row, score, first-row ties and "none" — if and only if every text leaf is in the store and can be fingerprinted |
| FuzzyProve.PerceptualFastPathIsScan | crates/attestrum-prove/src/lib.rs:931-1011 | the same for perceptual hashes, if and only if every image leaf is, and its two hashes are 16 hex characters each |
| FuzzyProve.IsccFastPathIsScan | crates/attestrum-prove/src/lib.rs:860-929 | the same for ISCC targets that decode, if and only if every leaf is in the store and every text or image leaf can be fingerprinted, with a body as long as the target's |
| FuzzyProve.IsccUndecodableTarget | crates/attestrum-prove/src/lib.rs:860-929 | for a target that does not decode the fast path errs; the scan gives the same error if and only if some leaf can be read and fingerprinted and every earlier one is in the store and neither text nor image, and finds nothing if and only if all leaves are that |
| FuzzyProve.UndecodableDiffers | crates/attestrum-prove/src/lib.rs:860-929 | over a single audio leaf the two differ |
| FuzzyProve.DispatchersPanicIff | crates/attestrum-prove/src/lib.rs:843-1226 | each dispatcher panics if and only if it consults a sidecar that makes the parser panic |
| FuzzyProve.ForeignSidecarCollision | crates/attestrum-prove/src/lib.rs:843-858 | a sidecar built over any manifest that passes the binding check, and agrees on modalities, is the one built for these entries, so the three equivalences hold of it; otherwise a collision is computed |
| FuzzyProve.ChangedModalityDiffers | crates/attestrum-prove/src/lib.rs:843-858 | a sidecar still binds after a leaf's modality changes, and then finds a match that the scan does not |
| FuzzyEntry.FoldRowsIsBest | crates/attestrum-prove/src/lib.rs:868-893 | of the rows visited, in the manifest or not, the fold keeps the first with the best qualifying score |
| FuzzyEntry.LookupPanicsExactly | crates/attestrum-prove/src/lib.rs:437-453 | after each fuzzy dispatch the row lookup panics if and only if parsing the sidecar has, or the sidecar binds and one of its candidate rows past the manifest's end qualifies and scores better than every qualifying candidate within |
| FuzzyEntry.MinhashMatch | crates/attestrum-prove/src/lib.rs:437-453 | the entry matched is the first whose text agrees in the most positions, if in 109 or more |
| FuzzyEntry.PerceptualMatch | crates/attestrum-prove/src/lib.rs:437-453 | the first whose nearer hash differs least, if in six bits or fewer |
| FuzzyEntry.IsccMatch | crates/attestrum-prove/src/lib.rs:437-453 | the first whose body differs least, if in four bits or fewer |
| FuzzyEntry.BuiltRowsAreInManifest | crates/attestrum-prove/src/lib.rs:437-453 | with a sidecar the builder wrote for the manifest it never does, for any query |
| FuzzyEntry.StrayRowPanics | crates/attestrum-prove/src/lib.rs:843-858 | for every manifest a sidecar that passes the binding check and on whose query the lookup panics |
| UnionFind.HalvingKeepsRoots | crates/attestrum-dedup/src/cluster.rs:185-191 | pointing a node at its grandparent keeps the forest and every root |
| UnionFind.LinkMerges | crates/attestrum-dedup/src/cluster.rs:193-205 | hanging the smaller root under the larger merges their two classes and no others, and sizes stay the classes' cardinalities |
| UnionFind.UnionFind.constructor | crates/attestrum-dedup/src/cluster.rs:178-183 | every element is alone |
| UnionFind.UnionFind.Find | crates/attestrum-dedup/src/cluster.rs:185-191 | returns the representative, changes no class, and its loop runs at most log2 n times, every non-root having at most half its parent's size |
| UnionFind.UnionFind.Union | crates/attestrum-dedup/src/cluster.rs:193-205 | merges exactly the classes of its arguments, under the larger class's representative |
| DedupSpec.JaccardMeans | crates/attestrum-dedup/src/cluster.rs:156-164 | the estimate is symmetric and 1 exactly for equal signatures other than the empty input's |
| DedupMeaning.EstimateCounts | crates/attestrum-dedup/src/cluster.rs:153-165 | unless both signatures are all u64::MAX the estimate times 128 is the number of positions at which they agree, else it is zero |
| DedupMeaning.ReportDescribes | crates/attestrum-dedup/src/cluster.rs:67-151 | of any documents that share a run of eight components and agree in at least t * 128, or have one signature, any two stand in one cluster; a cluster lists just those that chains of such pairs reach from its head, as often as they occur, with ids ascending; no two clusters are joined by a chain; larger clusters come first, then by first id |
| DedupSpec.BandingRefinesAllPairs | crates/attestrum-dedup/src/cluster.rs:88-116 | documents clustered through banding are connected in the all-pairs threshold graph |
| DedupSpec.HighThresholdIsAllPairs | crates/attestrum-dedup/src/cluster.rs:88-116 | above 112/128 the clusters are exactly the all-pairs components |
| DedupSpec.BandingIsAllPairsIff | crates/attestrum-dedup/src/cluster.rs:88-116 | banding loses no component of any documents if and only if the threshold is above 112/128 |
| DedupSpec.LowThresholdMisses | crates/attestrum-dedup/src/cluster.rs:18-33 | at 112/128 and below, the default 0.80 included, a pair with one mismatch in each band is connected by all pairs and not by banding |
| DedupSpec.ReportsShareClusters | crates/attestrum-dedup/src/cluster.rs:118-142 | any two reports over the same documents hold the same clusters, each equally often |
| DedupSpec.ReportUniqueIff | crates/attestrum-dedup/src/cluster.rs:136-142 | there is only one report, whatever the document and hash-map order, if and only if no two different clusters have the same size and first id |
| DedupSpec.DistinctIdsNoTies | crates/attestrum-dedup/src/cluster.rs:136-142 | with distinct document ids no two clusters tie |
| DedupSpec.TiesLeaveOrderOpen | crates/attestrum-dedup/src/cluster.rs:136-142 | four documents, one id repeated, whose two clusters may be reported in either order |
| DedupSpec.ReportIgnoresOrder | crates/attestrum-dedup/src/cluster.rs:67-151 | what is a report does not depend on the order of the documents |
| Dedup.Collapse | crates/attestrum-dedup/src/cluster.rs:72-86 | representatives partition the documents by signature, members in document order |
| Dedup.BuildBuckets | crates/attestrum-dedup/src/cluster.rs:91-99 | each bucket lists exactly the representatives with that band |
| Dedup.CollectCandidates | crates/attestrum-dedup/src/cluster.rs:100-108 | the candidate pairs are exactly the ordered pairs of representatives that share a band |
| Dedup.UnionCandidates | crates/attestrum-dedup/src/cluster.rs:111-116 | unions join every pair at the threshold and only connected representatives |
| Dedup.RootsAreComponents | crates/attestrum-dedup/src/cluster.rs:111-122 | two documents are connected if and only if their representatives have the same root |
| Dedup.Dedup | crates/attestrum-dedup/src/cluster.rs:67-151 | for any documents and ids, the clusters are the sorted id lists of the connected components of two or more documents, each component once, larger clusters first and then by first id, components being those of documents that share a run of eight and agree in at least t * 128 components, or have one signature; for distinct ids that is the one report |
| Dedup.DedupIgnoresOrder | crates/attestrum-dedup/src/cluster.rs:67-151 | reports over reordered documents hold the same clusters, in the same order unless two tie |
| CasStore.NextInv | crates/attestrum-cas/src/store.rs:125-196 | every step of every writer, every new put and every crash keeps the protocol's invariant |
| CasStore.AbsentOrComplete | crates/attestrum-cas/src/store.rs:125-196 | at every moment of every run a final path is absent or holds the complete content, and no two live writers share a temp file |
| CasStore.FinalsPersist | crates/attestrum-cas/src/store.rs:125-196 | a final path once present stays, unchanged, whatever crashes |
| CasStore.OkMeansPresent | crates/attestrum-cas/src/store.rs:125-188 | a put that returned Ok left its content at the final path for good |
| CasStore.NamesStayApart | crates/attestrum-cas/src/store.rs:192-196 | as long as no process counter wraps, no two puts in flight have the same temp name, not even before creating the file, with pids reused after crashes |
| CasStore.TakenNameFails | crates/attestrum-cas/src/store.rs:144-163 | a put whose temp name is taken can only fail, and leaves the file that has it alone |
| CasStore.ReusedPidMeetsLeftover | crates/attestrum-cas/src/store.rs:144-153 | a run in which a process dies with a temp file, another gets its pid and takes the very name |
| CasStore.PutIsWaitFree | crates/attestrum-cas/src/store.rs:125-188 | a put that has not returned always has a step, and one in which its call succeeds if its temp name is free; it returns within its content's length plus 8 steps of its own |
| CasStore.UndisturbedPutSucceeds | crates/attestrum-cas/src/store.rs:125-188 | left alone, with a free temp name and no failing call, a put returns Ok with its content at the final path |
| CasStore.PresentPutReturns | crates/attestrum-cas/src/store.rs:115-135 | a put of what is present returns Ok at its first step and writes nothing |
| ManifestOrder.AssignInputOrdinals | crates/attestrum-manifest/src/lib.rs:140-144 | every row gets its position and nothing else changes |
| ManifestOrder.AssignOccurrenceIndices | crates/attestrum-manifest/src/lib.rs:161-168 | every row gets the number of earlier rows with its digest |
| ManifestOrder.SortEntries | crates/attestrum-manifest/src/lib.rs:177-183 | the rows become their stable sort by digest and occurrence index |
| ManifestOrder.SealedRank | crates/attestrum-manifest/src/lib.rs:91-93 | counting again along the sealed order gives every row the occurrence index it has |
| ManifestOrder.SealedOrdinals | crates/attestrum-manifest/src/lib.rs:91-93 | within a digest's group the sealed order is the order of input |
| ManifestOrder.SealedIds | crates/attestrum-manifest/src/lib.rs:170-183 | the sealed digests are the input's digests, sorted |
| Pipeline.StepInv | crates/attestrum-pipeline/src/lib.rs:153-163 | whichever worker runs next and whether or not the disk fails it, a worker without an error holds exactly the rows of the entries it has folded, all stored |
| Pipeline.MergedRows | crates/attestrum-pipeline/src/lib.rs:164-172 | a successful reduction yields the rows of all shares merged, in the order merged |
| Pipeline.ScheduleIndependent | crates/attestrum-pipeline/src/lib.rs:133-204 | however the work is split, interleaved and merged, a successful build seals the corpus's own rows, and each row's digest is in the store with content that hashes to it |
| Pipeline.SucceedsIffReadable | crates/attestrum-pipeline/src/lib.rs:133-172 | on a disk that works a build succeeds if and only if every entry can be read, on every schedule |
| PipelineMeaning.BuildMeans | crates/attestrum-pipeline/src/lib.rs:133-172 | on every schedule, failing or not, the store keeps what it held and gains only contents of the corpus under their hash, and an error names an entry, on a working disk one that cannot be read |
| Pipeline.SealedRowIsItsEntrys | crates/attestrum-pipeline/src/lib.rs:209-263 | a sealed row has the two digests and the size of the bytes of the entry at its input ordinal, and that entry's columns |
| Pipeline.EachEntryOnce | crates/attestrum-pipeline/src/lib.rs:133-185 | no two sealed rows are of the same entry |
| Pipeline.Epilogue | crates/attestrum-pipeline/src/lib.rs:174-204 | sort by ordinal, rank, sort canonically and hash: the rows, their Merkle root, leaf count and total bytes |
| Pipeline.CorpusRowsInOrder | crates/attestrum-pipeline/src/lib.rs:174-185 | sealed rows ascend by digest, and each equal-digest group counts 0, 1, 2, ... with increasing input ordinals |
| Pipeline.RootOfMultiset | crates/attestrum-pipeline/src/lib.rs:31-33 | the root depends only on the multiset of contents |
| Pipeline.RootNamesContents | crates/attestrum-pipeline/src/lib.rs:187-188 | corpora with the same root and different contents exhibit a collision among the inputs their builds hashed |
| DiffSpec.GroupsIffClean | crates/attestrum-diff/src/lib.rs:295-326 | grouping a stream succeeds exactly when no read fails and ids never descend |
| DiffSpec.GroupsOfClean | crates/attestrum-diff/src/lib.rs:295-326 | the groups of a clean stream are its distinct ids in strictly ascending order, each with its number of occurrences |
| DiffSpec.MergeJoinSpec | crates/attestrum-diff/src/lib.rs:164-202 | on ascending groups the walk's three outcomes are the two set differences and the intersection, each in ascending order |
| Diff.Summary.FoldRow | crates/attestrum-diff/src/lib.rs:376-388 | one row more in every count, the leaf list and each of the five histograms |
| Diff.GroupReader.NextGroup | crates/attestrum-diff/src/lib.rs:295-326 | yields the next run of equal ids and folds its rows, or the error at its start, in it, or in its order |
| Diff.HistogramCounts | crates/attestrum-diff/src/lib.rs:406-408 | a histogram holds exactly the labels that occur, with how often they do |
| Diff.HistogramTotal | crates/attestrum-diff/src/lib.rs:406-408 | every histogram sums to the number of rows |
| DiffMeaning.SummaryMeans | crates/attestrum-diff/src/lib.rs:376-507 | a summary has the rows' root, number, distinct ids, repetitions and sum of sizes, and under each label how many rows have that modality, source type, dataset, license or language, those without counting as unspecified |
| Diff.JoinGivesDelta | crates/attestrum-diff/src/lib.rs:164-202 | counts are the sizes of new minus old, old minus new and the intersection; examples and multiset shifts are the first 16 of theirs, ascending |
| DiffMeaning.DeltaMeans | crates/attestrum-diff/src/lib.rs:164-202 | given the added, removed and shifted ids in ascending order, the delta counts them and the common ids, and its examples are the first sixteen of each, the shifted ones with their two counts |
| Diff.Compare | crates/attestrum-diff/src/lib.rs:147-225 | succeeds if and only if both streams are error-free and sorted by document id, and then reports the set-level delta and both summaries; otherwise the error is one of the two streams' own |
| Diff.DistinctAddUp | crates/attestrum-diff/src/lib.rs:89-126 | added and unchanged make the new distinct count, removed and unchanged the old one |
| Diff.SwapSymmetry | crates/attestrum-diff/src/lib.rs:147-225 | swapping the versions swaps added with removed and the counts of each shift |
| Shingles.ShingleHashes | crates/attestrum-decontaminate/src/shingle.rs:20-39 | every window hashed, sorted, without repetition |
| Shingles.ShingleSetSpec | crates/attestrum-decontaminate/src/shingle.rs:18-39 | the result is a strictly ascending vector of exactly the windows' hashes, empty iff there are fewer words than the window |
| Shingles.SameJoinIffSamePieces | crates/attestrum-decontaminate/src/shingle.rs:13-16 | two windows hash the same input exactly when cutting their words at separators gives the same pieces; without separators, only equal windows do |
| Shingles.BoundariesCanBeAmbiguous | crates/attestrum-decontaminate/src/shingle.rs:13-16 | two different windows that hash the same input |
| Shingles.CommonShingleMeans | crates/attestrum-decontaminate/src/shingle.rs:13-39 | two texts have an n-gram hash in common exactly when they have a run of n words in common, up to separators inside words, or two runs whose different joined words hash to the same eight bytes |
| Shingles.ShinglesCountRuns | crates/attestrum-decontaminate/src/shingle.rs:18-39 | unless runs so collide, there are as many hashes as different runs, and as many in common as runs in common |
| Shingles.TextIsItsWords | crates/attestrum-decontaminate/src/shingle.rs:20-24 | text with single spaces and none at its ends is its words joined by spaces |
| Shingles.WordsOfJoinSpace | crates/attestrum-text-minhash/src/minhash.rs:27-43 | words joined by spaces are got back by splitting, so the kernel's shingles determine their words |
| TextMinhash.ComputeLoop | crates/attestrum-text-minhash/src/minhash.rs:23-67 | the 128 components are the least keyed hashes of the shingles, u64::MAX of none, and the shingles are the windows of five words or the one of fewer |
| TextMinhash.ComponentMeans | crates/attestrum-text-minhash/src/minhash.rs:23-67 | component i is at most the hash of every window of five words and the hash of one of them, first eight bytes, little-endian, keyed by the hash of the prefix and i in eight bytes; of fewer words it is that of all of them |
| TextMinhash.EqualComponentsMean | crates/attestrum-text-minhash/src/minhash.rs:23-67 | texts that agree in one component have a 5-gram in common, in both shingle sets, or are the same fewer than five words, unless two of their different shingles have one keyed hash |
| Contamination.FeaturesAreSets | crates/attestrum-decontaminate/src/detect.rs:35-49 | items made from text have strictly ascending shingle vectors, as the indexes need |
| Contamination.BuildIndexes | crates/attestrum-decontaminate/src/detect.rs:89-105 | under each hash, once each, exactly the items that have it |
| Contamination.CountShared | crates/attestrum-decontaminate/src/detect.rs:116-134 | the counters are the sizes of the shingle-set intersections |
| Contamination.Candidates | crates/attestrum-decontaminate/src/detect.rs:136-143 | the union of both counters' keys, strictly ascending |
| Contamination.ScanDoc | crates/attestrum-decontaminate/src/detect.rs:109-180 | the hits of one document are the verdicts on all items with a shingle in common, in order |
| Contamination.Scan | crates/attestrum-decontaminate/src/detect.rs:84-197 | the report is the sorted verdicts on all pairs with a shingle in common, and the documented brute-force report, which tests every pair's estimate, if and only if every pair agrees |
| Contamination.ScanIsBruteForce | crates/attestrum-decontaminate/src/detect.rs:80-197 | the two reports are equal if and only if every pair has a 5-gram in common, or a 13-gram only and an estimate of zero, or no shingle and an estimate below the threshold |
| Contamination.ScanMeetsDocumentation | crates/attestrum-decontaminate/src/detect.rs:80-197 | over texts, the scan gives the documented report if and only if it misses no document with an item |
| Contamination.MissedExactly | crates/attestrum-decontaminate/src/detect.rs:145-164 | at a positive threshold a pair with a text under five words is missed iff its estimate reaches the threshold; every missed pair is of the same one to four words, or of an empty text and one with a component u64::MAX, or has two different shingles with one keyed hash, and a pair of longer texts only the last; the same one to four words are missed iff the threshold is at most one and not all components are u64::MAX |
| Contamination.HelloWorldMissed | crates/attestrum-decontaminate/src/detect.rs:145-164 | "hello world" against itself is a documented hit at every positive threshold up to one and the scan reports nothing |
| Contamination.ShortDocumentMissed | crates/attestrum-decontaminate/src/detect.rs:145-164 | the same for every text under five words and every item its estimate reaches the threshold with |
| Contamination.EmptyDocumentIsMissed | crates/attestrum-decontaminate/src/detect.rs:145-164 | at a threshold of zero or less an empty document is a documented hit with any item and the scan reports nothing |
| Contamination.VerdictMeans | crates/attestrum-decontaminate/src/detect.rs:146-178 | when a pair is flagged, by which signals, and with which names, counts, containment and similarity |
| ContaminationText.ExactMeans | crates/attestrum-decontaminate/src/detect.rs:145-164 | an exact hit is a run of thirteen words in document and item, or two different runs of theirs that hash to the same eight bytes |
| ContaminationText.VerdictOnTexts | crates/attestrum-decontaminate/src/detect.rs:145-178 | unless runs collide, when a pair of texts is flagged, and by which signals and with which counts, containment and similarity: in terms of their runs of thirteen and five words and the positions at which their MinHashes agree |
| Contamination.WholeItemIsContained | crates/attestrum-decontaminate/src/detect.rs:151-164 | an item all of whose 5-grams occur in a document is flagged with containment 1 |
| Contamination.DocumentedMeans | crates/attestrum-decontaminate/src/lib.rs:21-28 | the brute-force verdict flags a pair exactly when any of the three documented signals fires |
| Contamination.ReportHolds | crates/attestrum-decontaminate/src/detect.rs:183-197 | either report holds a hit if and only if some pair flags it, sorted by benchmark, item and document |
| JsonText.PrintCancels | crates/attestrum-attest/src/json.rs:41-51 | printed values are unambiguous even in front of other text: the value and the text after it can be told from the whole |
| JsonText.JsonInjective | crates/attestrum-attest/src/json.rs:41-51 | two trees have the same JSON bytes if and only if they are the same tree |
| JsonRead.QuotedIsRead | crates/attestrum-attest/src/json.rs:41-51 | a reader of string literals by section 7 of RFC 8259 reads back every string printed, and leaves what follows |
| JsonRead.EscapeLengths | crates/attestrum-attest/src/json.rs:41-51 | only quotes, backslashes and control characters are escaped, those with a letter in two characters, the others in six |
| JsonRead.FormsOfValues | crates/attestrum-attest/src/json.rs:41-51 | constants are their words, numbers stand as they are, elements and members keep their order between commas, in brackets or braces, keys quoted and followed by a colon |
| JsonRead.BytesAreText | crates/attestrum-attest/src/json.rs:41-51 | a reader of UTF-8 reads the bytes of a value back as its text |
| JsonText.CodesOrderIsUtf8Order | crates/attestrum-attest/src/json.rs:58-72 | comparing keys by code points is comparing their UTF-8 bytes, in both directions |
| Canonicalize.ApplyStripAt | crates/attestrum-attest/src/canonicalize.rs:211-233 | the recursive walk replaces every leaf the path reaches, and skips paths that do not resolve |
| Canonicalize.StripAllIsStripSet | crates/attestrum-attest/src/canonicalize.rs:194-205 | applying the paths one after the other is replacing the leaves of their set at once |
| Canonicalize.StripOrderIrrelevant | crates/attestrum-attest/src/canonicalize.rs:194-205 | the order in which paths are applied does not matter |
| Canonicalize.StripIdempotent | crates/attestrum-attest/src/canonicalize.rs:194-205 | stripping twice is stripping once |
| Canonicalize.SortKeysLoop | crates/attestrum-attest/src/json.rs:58-72 | sorting entries and then recursing gives the tree with every object sorted by key |
| Canonicalize.SortKeepsContent | crates/attestrum-attest/src/json.rs:52-72 | key sorting changes nothing but the order of keys, at every depth |
| Canonicalize.SortIdempotent | crates/attestrum-attest/src/json.rs:58-72 | sorting twice is sorting once |
| Canonicalize.CanonicalizeForCompare | crates/attestrum-attest/src/canonicalize.rs:194-205 | the bytes returned are the compact JSON of the bundle stripped along all 16 paths and key-sorted |
| Canonicalize.CanonicalFormsAgree | crates/attestrum-attest/src/canonicalize.rs:185-246 | two bundles have the same canonical tree if and only if they agree, up to key order, everywhere off the strip paths, with leaves of the same class on them |
| CanonicalMeaning.CanonicalFormMeans | crates/attestrum-attest/src/canonicalize.rs:194-246 | the canonical tree agrees with the bundle up to key order off the strip paths and in the class of leaves on them, has its keys ascending at every depth, and a sentinel wherever a path leads |
| CanonicalMeaning.StripPathsAreTheTable | docs/diagrams/sprint-4/verify-flow.md:83-100 | the 16 paths are those of the design's table, its [*] and [0] being every element |
| Canonicalize.CanonicalBytesAgree | crates/attestrum-attest/src/canonicalize.rs:185-246 | two bundles have the same canonical bytes if and only if they agree, up to key order, everywhere off the 16 strip paths, with leaves of the same class on them |

## Left out

- Signing, verification of signatures, transparency logs, identity rules: network calls and libraries whose code is not here.
- Parquet and Arrow files, fetching and caching of manifests, command-line parsing, Markdown, HTML and JSON rendering: a manifest is a sequence of rows, a report is its value. The columns no modelled computation reads are not in `Manifest.ManifestEntry`.
- Fingerprint kernels and text normalization: deterministic functions of bytes and modality, given as parameters, but for text MinHash, which `TextMinhash` models; texts of `Dedup`, `Shingles` and `Contamination` are already normalized.
- Floating point: estimates, containment and thresholds are exact; six-decimal rounding, confidence constants and a threshold that is not a number are not modelled. The diff's composition shares are left out, the histograms they divide are in.
- JsonText.JsonInjective: a number is the text the library prints for it; how it prints one is the library's.
- ManifestOrder.AssignOccurrenceIndices: occurrence indices are unbounded; the code's 32-bit counter holds up to 2^32 rows of one digest.
- Contamination.Scan: item positions are unbounded, where the code casts them to 32 bits; the display snippet of a hit is left out.
- Diff.Compare: byte totals are unbounded, where the code's 64-bit sum (crates/attestrum-diff/src/lib.rs:378) overflows; the input order, documented as by document id and occurrence index, is checked by id only, as the code does.
- Pipeline.ScheduleIndependent: the store inside the build is a map updated atomically per put; the steps within a put are `CasStore`'s.
- Pipeline.Epilogue: writing the manifest file and creating its directory are left out; the byte total is unbounded here too.
- CasStore: durability after power loss is left out, directory synchronisation being best effort in the code; temp files of crashed writers stay, as they do there.
- SidecarFormat.FromBytesLoop: an allocation that could be addressed but that the machine cannot serve ends the process, and is not modelled; nor are assertions that only debug builds check.
- FuzzyProve.PerceptualFastPathIsScan: perceptual hashes are ASCII text, as the fingerprint library writes them.
- FuzzyAnswer.IsccAnswer: leaves whose body has another length than the target's are excluded; a sidecar may rank such a leaf by its packed words, where the scan is an error.
- FuzzyProve.MinhashFastPathIsScan: the sidecar is over fewer than 2^32 rows, the width of its counts; the same holds of the other two dispatchers.
- The document target of `prove`, which tries exact and then fuzzy matching by the arms modelled here, is not modelled itself.
- Prove.AdjacencyIsExact: on a list that is not ascending the library's binary search promises nothing, and neither does the model.
- UnionFind.UnionFind.Find: the arrays are sequence fields reassigned element by element; aliasing of the two arrays cannot arise.
- Lifecycle tables, model-to-corpus binding and corpus composition: small tables, equality checks and counters like those proved here.
