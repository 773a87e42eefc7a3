/** What the canonical form of a bundle is: the bundle up to key order and off the strip paths,
    its keys ascending, and a sentinel wherever a strip path leads. */
module CanonicalMeaning {
  import opened Ordering
  import opened JsonText
  import opened Canonicalize

  /** At every depth, each key comes before the next by code points. */
  ghost predicate KeysAscend(v: Value) {
    match v
    case Object(fields) =>
      && (forall i, j :: 0 <= i < j < |fields| ==> LexLess(Codes(fields[i].key), Codes(fields[j].key)))
      && (forall i :: 0 <= i < |fields| ==> KeysAscend(fields[i].val))
    case Array(items) => forall i :: 0 <= i < |items| ==> KeysAscend(items[i])
    case _ => true
  }

  predicate IsSentinel(v: Value) {
    v == Str("__ATTESTRUM_STRIPPED__") || v == Number("0") || v == Bool(false) || v == Null
  }

  /** Wherever a path of the set leads, there is a sentinel. */
  ghost predicate SentinelsOn(v: Value, S: set<Path>)
    decreases v
  {
    if [] in S then IsSentinel(v)
    else
      match v
      case Object(fields) =>
        forall i :: 0 <= i < |fields| ==> SentinelsOn(fields[i].val, Under(S, Key(fields[i].key)))
      case Array(items) => forall i :: 0 <= i < |items| ==> SentinelsOn(items[i], Under(S, EachArrayElement))
      case _ => true
  }

  lemma {:induction false} StrippedHasSentinels(v: Value, S: set<Path>)
    ensures SentinelsOn(StripSet(v, S), S)
    decreases v
  {
    if [] !in S {
      match v
      case Object(fields) =>
        forall i | 0 <= i < |fields|
          ensures SentinelsOn(StripSet(v, S).fields[i].val, Under(S, Key(fields[i].key)))
        {
          StrippedHasSentinels(fields[i].val, Under(S, Key(fields[i].key)));
        }
      case Array(items) =>
        forall i | 0 <= i < |items|
          ensures SentinelsOn(StripSet(v, S).items[i], Under(S, EachArrayElement))
        {
          StrippedHasSentinels(items[i], Under(S, EachArrayElement));
        }
      case _ =>
    }
  }

  lemma {:induction false} SentinelsStay(v: Value, S: set<Path>)
    requires SentinelsOn(v, S)
    ensures StripSet(v, S) == v
    decreases v
  {
    if [] !in S {
      match v
      case Object(fields) =>
        forall i | 0 <= i < |fields|
          ensures StripSet(v, S).fields[i] == fields[i]
        {
          SentinelsStay(fields[i].val, Under(S, Key(fields[i].key)));
        }
        assert StripSet(v, S).fields == fields;
      case Array(items) =>
        forall i | 0 <= i < |items|
          ensures StripSet(v, S).items[i] == items[i]
        {
          SentinelsStay(items[i], Under(S, EachArrayElement));
        }
        assert StripSet(v, S).items == items;
      case _ =>
    }
  }

  lemma {:induction false} SortingKeepsSentinels(v: Value, S: set<Path>)
    requires SentinelsOn(v, S)
    ensures SentinelsOn(SortKeys(v), S)
    decreases v
  {
    if [] !in S {
      match v
      case Object(fields) =>
        forall i | 0 <= i < |fields|
          ensures SentinelsOn(SortVals(fields)[i].val, Under(S, Key(fields[i].key)))
        {
          SortingKeepsSentinels(fields[i].val, Under(S, Key(fields[i].key)));
        }
        PermutedSentinels(SortVals(fields), S);
        assert SortKeys(v) == Object(SortBy(KeyLeq, SortVals(fields)));
      case Array(items) =>
        forall i | 0 <= i < |items|
          ensures SentinelsOn(SortKeys(v).items[i], Under(S, EachArrayElement))
        {
          SortingKeepsSentinels(items[i], Under(S, EachArrayElement));
        }
      case _ =>
    }
  }

  lemma PermutedSentinels(x: seq<Field>, S: set<Path>)
    requires forall i :: 0 <= i < |x| ==> SentinelsOn(x[i].val, Under(S, Key(x[i].key)))
    ensures var y := SortBy(KeyLeq, x);
            forall i :: 0 <= i < |y| ==> SentinelsOn(y[i].val, Under(S, Key(y[i].key)))
  {
    var y := SortBy(KeyLeq, x);
    SortByPermutes(KeyLeq, x);
    SameMultisetSameMembers(x, y);
    forall i | 0 <= i < |y|
      ensures SentinelsOn(y[i].val, Under(S, Key(y[i].key)))
    {
      assert y[i] in x;
    }
  }

  lemma {:induction false} SortingAscends(v: Value)
    requires WellFormed(v)
    ensures KeysAscend(SortKeys(v))
    decreases v
  {
    match v
    case Object(fields) =>
      forall i | 0 <= i < |fields|
        ensures KeysAscend(SortVals(fields)[i].val)
      {
        SortingAscends(fields[i].val);
      }
      PermutedAscends(fields);
    case Array(items) =>
      forall i | 0 <= i < |items|
        ensures KeysAscend(SortKeys(v).items[i])
      {
        SortingAscends(items[i]);
      }
    case _ =>
  }

  lemma PermutedAscends(fields: seq<Field>)
    requires DistinctKeys(fields) && forall i :: 0 <= i < |fields| ==> KeysAscend(SortVals(fields)[i].val)
    ensures KeysAscend(Object(SortBy(KeyLeq, SortVals(fields))))
  {
    hide SortVals, SortBy, LexLess;
    var x := SortVals(fields);
    var y := SortBy(KeyLeq, x);
    SortKeepsFields(fields);
    KeyOrder();
    SortBySorts(KeyLeq, x);
    SortByPermutes(KeyLeq, x);
    SameMultisetSameMembers(x, y);
    forall i, j | 0 <= i < j < |y|
      ensures LexLess(Codes(y[i].key), Codes(y[j].key))
    {
      assert KeyLeq(y[i], y[j]);
      if Codes(y[i].key) == Codes(y[j].key) {
        CodesInjective(y[i].key, y[j].key);
      }
    }
    forall i | 0 <= i < |y|
      ensures KeysAscend(y[i].val)
    {
      assert y[i] in x;
    }
  }

  /** The canonical form agrees with the bundle up to key order, everywhere off the strip paths and
      in the class of the leaves on them; its keys ascend; and on the paths it has sentinels. By
      `CanonicalFormsAgree` no other form does for all bundles that agree so. */
  lemma CanonicalFormMeans(bundle: Value)
    requires WellFormed(bundle)
    ensures var c := SortKeys(StripAll(bundle, STRIP_PATHS));
            && WellFormed(c) && KeysAscend(c)
            && SameUpTo(c, bundle, PathSet(STRIP_PATHS)) && SentinelsOn(c, PathSet(STRIP_PATHS))
  {
    hide WellFormed, KeysAscend, SameUpTo, SentinelsOn, SortKeys, StripAll, StripSet, PathSet;
    var S := PathSet(STRIP_PATHS);
    var stripped := StripSet(bundle, S);
    StripAllAtOnce(bundle, STRIP_PATHS);
    SortKeepsContent(stripped);
    SortingAscends(stripped);
    StrippedHasSentinels(bundle, S);
    SortingKeepsSentinels(stripped, S);
    SentinelsStay(SortKeys(stripped), S);
    StrippedAgree(SortKeys(stripped), bundle, S);
  }

  // ------------------------------------------------------------------------
  // The strip paths of the design table
  // ------------------------------------------------------------------------

  /** A path given by its steps, "[]" being a step into every element. */
  function Along(steps: seq<string>): (p: Path)
    ensures |p| == |steps|
    ensures forall i :: 0 <= i < |steps| ==> p[i] == if steps[i] == "[]" then EachArrayElement else Key(steps[i])
  {
    seq(|steps|, i requires 0 <= i < |steps| => if steps[i] == "[]" then EachArrayElement else Key(steps[i]))
  }

  /** The paths, row by row, are those of the table of non-deterministic fields. */
  lemma StripPathsAreTheTable()
    ensures |STRIP_PATHS| == 16
    ensures STRIP_PATHS[0] == Along(["verificationMaterial", "certificate", "rawBytes"])
    ensures STRIP_PATHS[1] == Along(["verificationMaterial", "x509CertificateChain", "certificates", "[]", "rawBytes"])
    ensures STRIP_PATHS[2] == Along(["verificationMaterial", "timestampVerificationData", "rfc3161Timestamps", "[]",
                                     "signedTimestamp"])
    ensures STRIP_PATHS[3] == Along(["verificationMaterial", "tlogEntries", "[]", "integratedTime"])
    ensures STRIP_PATHS[4] == Along(["verificationMaterial", "tlogEntries", "[]", "logIndex"])
    ensures STRIP_PATHS[5] == Along(["verificationMaterial", "tlogEntries", "[]", "inclusionPromise",
                                     "signedEntryTimestamp"])
    ensures STRIP_PATHS[6] == Along(["verificationMaterial", "tlogEntries", "[]", "inclusionProof", "logIndex"])
    ensures STRIP_PATHS[7] == Along(["verificationMaterial", "tlogEntries", "[]", "inclusionProof", "rootHash"])
    ensures STRIP_PATHS[8] == Along(["verificationMaterial", "tlogEntries", "[]", "inclusionProof", "treeSize"])
    ensures STRIP_PATHS[9] == Along(["verificationMaterial", "tlogEntries", "[]", "inclusionProof", "hashes", "[]"])
    ensures STRIP_PATHS[10] == Along(["verificationMaterial", "tlogEntries", "[]", "inclusionProof", "checkpoint",
                                      "envelope"])
    ensures STRIP_PATHS[11] == Along(["verificationMaterial", "tlogEntries", "[]", "canonicalizedBody"])
    ensures STRIP_PATHS[12] == Along(["dsseEnvelope", "signatures", "[]", "sig"])
    ensures STRIP_PATHS[13] == Along(["dsseEnvelope", "signatures", "[]", "keyid"])
    ensures STRIP_PATHS[14] == Along(["verificationMaterial", "publicKeyIdentifier", "hint"])
    ensures STRIP_PATHS[15] == Along(["verificationMaterial", "publicKey", "rawBytes"])
  {
    hide Along;
    FirstRows();
    MiddleRows();
    LastRows();
  }

  lemma FirstRows()
    ensures |STRIP_PATHS| == 16
    ensures STRIP_PATHS[0] == Along(["verificationMaterial", "certificate", "rawBytes"])
    ensures STRIP_PATHS[1] == Along(["verificationMaterial", "x509CertificateChain", "certificates", "[]", "rawBytes"])
    ensures STRIP_PATHS[2] == Along(["verificationMaterial", "timestampVerificationData", "rfc3161Timestamps", "[]",
                                     "signedTimestamp"])
    ensures STRIP_PATHS[3] == Along(["verificationMaterial", "tlogEntries", "[]", "integratedTime"])
    ensures STRIP_PATHS[4] == Along(["verificationMaterial", "tlogEntries", "[]", "logIndex"])
    ensures STRIP_PATHS[5] == Along(["verificationMaterial", "tlogEntries", "[]", "inclusionPromise",
                                     "signedEntryTimestamp"])
  {
  }

  lemma MiddleRows()
    ensures |STRIP_PATHS| == 16
    ensures STRIP_PATHS[6] == Along(["verificationMaterial", "tlogEntries", "[]", "inclusionProof", "logIndex"])
    ensures STRIP_PATHS[7] == Along(["verificationMaterial", "tlogEntries", "[]", "inclusionProof", "rootHash"])
    ensures STRIP_PATHS[8] == Along(["verificationMaterial", "tlogEntries", "[]", "inclusionProof", "treeSize"])
    ensures STRIP_PATHS[9] == Along(["verificationMaterial", "tlogEntries", "[]", "inclusionProof", "hashes", "[]"])
    ensures STRIP_PATHS[10] == Along(["verificationMaterial", "tlogEntries", "[]", "inclusionProof", "checkpoint",
                                      "envelope"])
  {
  }

  lemma LastRows()
    ensures |STRIP_PATHS| == 16
    ensures STRIP_PATHS[11] == Along(["verificationMaterial", "tlogEntries", "[]", "canonicalizedBody"])
    ensures STRIP_PATHS[12] == Along(["dsseEnvelope", "signatures", "[]", "sig"])
    ensures STRIP_PATHS[13] == Along(["dsseEnvelope", "signatures", "[]", "keyid"])
    ensures STRIP_PATHS[14] == Along(["verificationMaterial", "publicKeyIdentifier", "hint"])
    ensures STRIP_PATHS[15] == Along(["verificationMaterial", "publicKey", "rawBytes"])
  {
  }
}
