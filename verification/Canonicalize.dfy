/** Stripping a bundle's volatile leaves and sorting its keys before comparison. The objects
    of a bundle have distinct keys. */
module Canonicalize {
  import opened Basics
  import opened JsonText
  import opened Ordering

  datatype PathSegment = Key(name: string) | EachArrayElement

  type Path = seq<PathSegment>

  const STRIP_SENTINEL := "__ATTESTRUM_STRIPPED__"

  /** The 16 volatile fields of a Sigstore bundle. */
  const STRIP_PATHS: seq<Path> := [
    [Key("verificationMaterial"), Key("certificate"), Key("rawBytes")],
    [Key("verificationMaterial"), Key("x509CertificateChain"), Key("certificates"), EachArrayElement, Key("rawBytes")],
    [Key("verificationMaterial"), Key("timestampVerificationData"), Key("rfc3161Timestamps"), EachArrayElement,
     Key("signedTimestamp")],
    [Key("verificationMaterial"), Key("tlogEntries"), EachArrayElement, Key("integratedTime")],
    [Key("verificationMaterial"), Key("tlogEntries"), EachArrayElement, Key("logIndex")],
    [Key("verificationMaterial"), Key("tlogEntries"), EachArrayElement, Key("inclusionPromise"),
     Key("signedEntryTimestamp")],
    [Key("verificationMaterial"), Key("tlogEntries"), EachArrayElement, Key("inclusionProof"), Key("logIndex")],
    [Key("verificationMaterial"), Key("tlogEntries"), EachArrayElement, Key("inclusionProof"), Key("rootHash")],
    [Key("verificationMaterial"), Key("tlogEntries"), EachArrayElement, Key("inclusionProof"), Key("treeSize")],
    [Key("verificationMaterial"), Key("tlogEntries"), EachArrayElement, Key("inclusionProof"), Key("hashes"),
     EachArrayElement],
    [Key("verificationMaterial"), Key("tlogEntries"), EachArrayElement, Key("inclusionProof"), Key("checkpoint"),
     Key("envelope")],
    [Key("verificationMaterial"), Key("tlogEntries"), EachArrayElement, Key("canonicalizedBody")],
    [Key("dsseEnvelope"), Key("signatures"), EachArrayElement, Key("sig")],
    [Key("dsseEnvelope"), Key("signatures"), EachArrayElement, Key("keyid")],
    [Key("verificationMaterial"), Key("publicKeyIdentifier"), Key("hint")],
    [Key("verificationMaterial"), Key("publicKey"), Key("rawBytes")]
  ]

  ghost predicate DistinctKeys(fields: seq<Field>) {
    forall i, j :: 0 <= i < j < |fields| ==> fields[i].key != fields[j].key
  }

  /** No object repeats a key, at any depth. */
  ghost predicate WellFormed(v: Value) {
    match v
    case Object(fields) => DistinctKeys(fields) && forall i :: 0 <= i < |fields| ==> WellFormed(fields[i].val)
    case Array(items) => forall i :: 0 <= i < |items| ==> WellFormed(items[i])
    case _ => true
  }

  // ------------------------------------------------------------------------
  // Stripping
  // ------------------------------------------------------------------------

  /** `strip_sentinel_for`. */
  function Sentinel(v: Value): Value {
    match v
    case Str(_) => Str(STRIP_SENTINEL)
    case Number(_) => Number("0")
    case Bool(_) => Bool(false)
    case Null => Null
    case Array(_) => Null
    case Object(_) => Null
  }

  /** `Map::get_mut`: where the key is, or the length when it is absent. */
  function IndexOfKey(fields: seq<Field>, k: string): (i: nat)
    ensures i <= |fields|
    ensures i < |fields| ==> fields[i].key == k
    ensures forall j :: 0 <= j < i ==> fields[j].key != k
  {
    if fields == [] || fields[0].key == k then 0 else 1 + IndexOfKey(fields[1..], k)
  }

  /** One path applied: every leaf it reaches becomes its sentinel. */
  function Strip(v: Value, path: Path): Value
    decreases |path|
  {
    if path == [] then Sentinel(v)
    else
      match path[0]
      case Key(k) =>
        if v.Object? && IndexOfKey(v.fields, k) < |v.fields| then
          var i := IndexOfKey(v.fields, k);
          Object(v.fields[i := Field(k, Strip(v.fields[i].val, path[1..]))])
        else v
      case EachArrayElement =>
        if v.Array? then Array(seq(|v.items|, i requires 0 <= i < |v.items| => Strip(v.items[i], path[1..]))) else v
  }

  function StripAll(v: Value, paths: seq<Path>): Value
    decreases |paths|
  {
    if paths == [] then v else StripAll(Strip(v, paths[0]), paths[1..])
  }

  /** `apply_strip_at`, with its index into the path and its loop over array elements. */
  method ApplyStripAt(v: Value, path: Path, idx: nat) returns (r: Value)
    requires idx <= |path|
    ensures r == Strip(v, path[idx..])
    decreases |path| - idx, 1
  {
    if idx == |path| {
      return Sentinel(v);
    }
    assert path[idx..][1..] == path[idx + 1..];
    r := v;
    match path[idx] {
      case Key(k) =>
        if v.Object? {
          var i := IndexOfKey(v.fields, k);
          if i < |v.fields| {
            var child := ApplyStripAt(v.fields[i].val, path, idx + 1);
            r := Object(v.fields[i := Field(k, child)]);
          }
        }
      case EachArrayElement =>
        if v.Array? {
          var items := StripElements(v.items, path, idx);
          r := Array(items);
        }
    }
  }

  /** The loop over an array's elements. */
  method StripElements(arr: seq<Value>, path: Path, idx: nat) returns (items: seq<Value>)
    requires idx < |path|
    ensures items == seq(|arr|, i requires 0 <= i < |arr| => Strip(arr[i], path[idx + 1..]))
    decreases |path| - idx, 0
  {
    items := arr;
    for i := 0 to |arr|
      invariant |items| == |arr|
      invariant forall j :: 0 <= j < i ==> items[j] == Strip(arr[j], path[idx + 1..])
      invariant forall j :: i <= j < |items| ==> items[j] == arr[j]
    {
      var child := ApplyStripAt(items[i], path, idx + 1);
      items := items[i := child];
    }
  }

  // ------------------------------------------------------------------------
  // All paths at once
  // ------------------------------------------------------------------------

  /** The paths of S that go on below a segment. */
  function Under(S: set<Path>, seg: PathSegment): set<Path> {
    set p | p in S && p != [] && p[0] == seg :: p[1..]
  }

  /** Stripping every path of S simultaneously. */
  function StripSet(v: Value, S: set<Path>): Value
    decreases v
  {
    if [] in S then Sentinel(v)
    else
      match v
      case Object(fields) =>
        Object(seq(|fields|, i requires 0 <= i < |fields| =>
          Field(fields[i].key, StripSet(fields[i].val, Under(S, Key(fields[i].key))))))
      case Array(items) =>
        Array(seq(|items|, i requires 0 <= i < |items| => StripSet(items[i], Under(S, EachArrayElement))))
      case _ => v
  }

  lemma {:induction false} StripSetEmpty(v: Value)
    ensures StripSet(v, {}) == v
    decreases v
  {
    match v
    case Object(fields) =>
      forall i | 0 <= i < |fields|
        ensures StripSet(fields[i].val, Under({}, Key(fields[i].key))) == fields[i].val
      {
        assert Under({}, Key(fields[i].key)) == {};
        StripSetEmpty(fields[i].val);
      }
      assert StripSet(v, {}).fields == fields;
    case Array(items) =>
      forall i | 0 <= i < |items|
        ensures StripSet(items[i], Under({}, EachArrayElement)) == items[i]
      {
        assert Under({}, EachArrayElement) == {};
        StripSetEmpty(items[i]);
      }
      assert StripSet(v, {}).items == items;
    case _ =>
  }

  lemma UnderAdd(S: set<Path>, p: Path, seg: PathSegment)
    ensures p != [] && p[0] == seg ==> Under(S + {p}, seg) == Under(S, seg) + {p[1..]}
    ensures p == [] || p[0] != seg ==> Under(S + {p}, seg) == Under(S, seg)
  {
    if p != [] && p[0] == seg {
      assert p in S + {p};
    }
  }

  /** Applying one more path after stripping S is stripping S and that path together. */
  lemma {:induction false} StripOneMore(v: Value, S: set<Path>, p: Path)
    requires WellFormed(v)
    ensures Strip(StripSet(v, S), p) == StripSet(v, S + {p})
    decreases v
  {
    if p != [] && [] !in S {
      match v
      case Object(fields) => StripOneMoreInObject(fields, S, p);
      case Array(items) =>
        UnderAdd(S, p, EachArrayElement);
        if p[0].EachArrayElement? {
          forall i | 0 <= i < |items|
            ensures Strip(StripSet(items[i], Under(S, EachArrayElement)), p[1..])
                 == StripSet(items[i], Under(S + {p}, EachArrayElement))
          {
            StripOneMore(items[i], Under(S, EachArrayElement), p[1..]);
          }
          assert Strip(StripSet(v, S), p).items == StripSet(v, S + {p}).items;
        } else {
          assert StripSet(v, S).items == StripSet(v, S + {p}).items;
        }
      case _ =>
    }
  }

  lemma {:induction false} StripOneMoreInObject(fields: seq<Field>, S: set<Path>, p: Path)
    requires WellFormed(Object(fields)) && p != [] && [] !in S
    ensures Strip(StripSet(Object(fields), S), p) == StripSet(Object(fields), S + {p})
    decreases Object(fields), 0
  {
    var once, both := StripSet(Object(fields), S).fields, StripSet(Object(fields), S + {p}).fields;
    forall i | 0 <= i < |fields|
      ensures both[i] == if p[0] == Key(fields[i].key) then Field(once[i].key, Strip(once[i].val, p[1..])) else once[i]
    {
      UnderAdd(S, p, Key(fields[i].key));
      if p[0] == Key(fields[i].key) {
        StripOneMore(fields[i].val, Under(S, Key(fields[i].key)), p[1..]);
      }
    }
    if p[0].Key? {
      var i := IndexOfKey(once, p[0].name);
      assert DistinctKeys(once);
      if i < |once| {
        assert once[i := Field(p[0].name, Strip(once[i].val, p[1..]))] == both;
      } else {
        assert once == both;
      }
    } else {
      assert once == both;
    }
  }

  ghost function PathSet(paths: seq<Path>): set<Path> {
    set p | p in paths
  }

  /** Stripping the paths one after the other, in any order, is stripping their set. */
  lemma {:induction false} StripAllIsStripSet(v: Value, S: set<Path>, paths: seq<Path>)
    requires WellFormed(v)
    ensures StripAll(StripSet(v, S), paths) == StripSet(v, S + PathSet(paths))
    decreases |paths|
  {
    if paths == [] {
      assert S + PathSet([]) == S;
    } else {
      StripOneMore(v, S, paths[0]);
      StripAllIsStripSet(v, S + {paths[0]}, paths[1..]);
      assert paths == [paths[0]] + paths[1..];
      assert S + {paths[0]} + PathSet(paths[1..]) == S + PathSet(paths);
    }
  }

  /** The order in which the paths are applied does not matter. */
  lemma StripOrderIrrelevant(v: Value, paths: seq<Path>, paths': seq<Path>)
    requires WellFormed(v) && forall p :: p in paths <==> p in paths'
    ensures StripAll(v, paths) == StripAll(v, paths')
  {
    StripAllAtOnce(v, paths);
    StripAllAtOnce(v, paths');
    assert PathSet(paths) == PathSet(paths');
  }

  lemma StripIdempotent(v: Value, paths: seq<Path>)
    requires WellFormed(v)
    ensures StripAll(StripAll(v, paths), paths) == StripAll(v, paths)
  {
    var S := PathSet(paths);
    StripAllAtOnce(v, paths);
    assert S + S == S;
    StripAllIsStripSet(v, S, paths);
  }

  // ------------------------------------------------------------------------
  // Sorting the keys
  // ------------------------------------------------------------------------

  predicate KeyLeq(f: Field, g: Field) {
    LexLeq(Codes(f.key), Codes(g.key))
  }

  lemma KeyOrder()
    ensures TotalPreorder(KeyLeq)
  {
    forall f, g, h
      ensures KeyLeq(f, g) || KeyLeq(g, f)
      ensures KeyLeq(f, g) && KeyLeq(g, h) ==> KeyLeq(f, h)
    {
      LexOrder(Codes(f.key), Codes(g.key), Codes(h.key));
    }
  }

  lemma KeysTellApart(fields: seq<Field>)
    requires DistinctKeys(fields)
    ensures AntisymmetricOn(KeyLeq, fields) && NoRepeats(fields)
  {
    forall f, g | f in fields && g in fields && KeyLeq(f, g) && KeyLeq(g, f)
      ensures f == g
    {
      LexOrder(Codes(f.key), Codes(g.key), Codes(f.key));
      CodesInjective(f.key, g.key);
    }
  }

  /** Every field with its value's keys sorted, in the same order. */
  function SortVals(fields: seq<Field>): (r: seq<Field>)
    ensures |r| == |fields|
    ensures forall i :: 0 <= i < |fields| ==> r[i].key == fields[i].key
  {
    seq(|fields|, i requires 0 <= i < |fields| => Field(fields[i].key, SortKeys(fields[i].val)))
  }

  /** `sort_keys`, as a function: objects by key at every depth, arrays in order. */
  function SortKeys(v: Value): Value {
    match v
    case Object(fields) => Object(SortBy(KeyLeq, SortVals(fields)))
    case Array(items) => Array(seq(|items|, i requires 0 <= i < |items| => SortKeys(items[i])))
    case _ => v
  }

  /** Values play no part in where a field is inserted. */
  lemma {:induction false} InsertCommutes(f: Field, fields: seq<Field>)
    ensures SortVals(InsertBy(KeyLeq, f, fields)) == InsertBy(KeyLeq, Field(f.key, SortKeys(f.val)), SortVals(fields))
  {
    hide LexLeq, LexLess, SortKeys, SortBy;
    if fields == [] || KeyLeq(f, fields[0]) {
      assert SortVals([f] + fields) == [Field(f.key, SortKeys(f.val))] + SortVals(fields);
    } else {
      InsertCommutes(f, fields[1..]);
      assert SortVals(fields)[1..] == SortVals(fields[1..]);
      var rest := InsertBy(KeyLeq, f, fields[1..]);
      assert SortVals([fields[0]] + rest) == [SortVals(fields)[0]] + SortVals(rest);
    }
  }

  lemma {:induction false} SortCommutes(fields: seq<Field>)
    ensures SortVals(SortBy(KeyLeq, fields)) == SortBy(KeyLeq, SortVals(fields))
  {
    if fields != [] {
      SortCommutes(fields[1..]);
      assert SortVals(fields)[1..] == SortVals(fields[1..]);
      InsertCommutes(fields[0], SortBy(KeyLeq, fields[1..]));
    }
  }

  /** `sort_keys` in the source's order: the entries first, then each value on insertion. */
  method SortKeysLoop(v: Value) returns (r: Value)
    ensures r == SortKeys(v)
    decreases v
  {
    hide SortBy, KeyLeq;
    match v
    case Object(fields) =>
      var entries := SortBy(KeyLeq, fields);
      SortByPermutes(KeyLeq, fields);
      SameMultisetSameMembers(fields, entries);
      var sorted: seq<Field> := [];
      for i := 0 to |entries|
        invariant sorted == SortVals(entries)[..i]
      {
        assert entries[i] in fields;
        var val := SortKeysLoop(entries[i].val);
        sorted := sorted + [Field(entries[i].key, val)];
      }
      SortCommutes(fields);
      r := Object(sorted);
    case Array(items) =>
      var sorted: seq<Value> := [];
      for i := 0 to |items|
        invariant sorted == SortKeys(v).items[..i]
      {
        var val := SortKeysLoop(items[i]);
        sorted := sorted + [val];
      }
      r := Array(sorted);
    case _ => r := v;
  }

  /** The loop over the strip paths. */
  method StripLoop(bundle: Value, paths: seq<Path>) returns (stripped: Value)
    ensures stripped == StripAll(bundle, paths)
  {
    stripped := bundle;
    for i := 0 to |paths|
      invariant StripAll(stripped, paths[i..]) == StripAll(bundle, paths)
    {
      assert paths[i..][1..] == paths[i + 1..];
      assert paths[i][0..] == paths[i];
      stripped := ApplyStripAt(stripped, paths[i], 0);
    }
  }

  /** `canonicalize_for_compare`: strip, sort, serialize. */
  method CanonicalizeForCompare(bundle: Value) returns (bytes: Bytes)
    ensures bytes == JsonBytes(SortKeys(StripAll(bundle, STRIP_PATHS)))
  {
    var stripped := StripLoop(bundle, STRIP_PATHS);
    var sorted := SortKeysLoop(stripped);
    bytes := JsonBytes(sorted);
  }

  // ------------------------------------------------------------------------
  // What equal canonical forms mean
  // ------------------------------------------------------------------------

  /** The classes a stripped leaf still shows: string, number, bool, or one of the rest. */
  predicate SameClass(a: Value, b: Value) {
    a.Str? == b.Str? && a.Number? == b.Number? && a.Bool? == b.Bool?
  }

  /** Equal off the paths of S, ignoring the order of object keys; on them, of the same class. */
  ghost predicate SameUpTo(a: Value, b: Value, S: set<Path>)
    decreases a
  {
    if [] in S then SameClass(a, b)
    else if a.Object? && b.Object? then
      && SameKeys(a.fields, b.fields)
      && (forall i, j :: 0 <= i < |a.fields| && 0 <= j < |b.fields| && a.fields[i].key == b.fields[j].key ==>
            SameUpTo(a.fields[i].val, b.fields[j].val, Under(S, Key(a.fields[i].key))))
    else if a.Array? && b.Array? then
      && |a.items| == |b.items|
      && (forall i :: 0 <= i < |a.items| ==> SameUpTo(a.items[i], b.items[i], Under(S, EachArrayElement)))
    else a == b
  }

  ghost predicate HasKey(fields: seq<Field>, k: string) {
    exists i :: 0 <= i < |fields| && fields[i].key == k
  }

  ghost predicate SameKeys(f: seq<Field>, g: seq<Field>) {
    && (forall i :: 0 <= i < |f| ==> HasKey(g, f[i].key))
    && (forall j :: 0 <= j < |g| ==> HasKey(f, g[j].key))
  }

  /** Only the keys matter to SameKeys. */
  lemma SameKeysOfKeys(f: seq<Field>, g: seq<Field>, f': seq<Field>, g': seq<Field>)
    requires |f| == |f'| && forall i :: 0 <= i < |f| ==> f[i].key == f'[i].key
    requires |g| == |g'| && forall i :: 0 <= i < |g| ==> g[i].key == g'[i].key
    ensures SameKeys(f, g) <==> SameKeys(f', g')
  {
    assert forall k :: (HasKey(f, k) <==> HasKey(f', k)) && (HasKey(g, k) <==> HasKey(g', k));
  }

  lemma UnderNothing(seg: PathSegment)
    ensures Under({}, seg) == {}
  {
  }

  /** Stripping both sides and comparing everything is comparing up to S. */
  lemma {:induction false} StrippedAgree(a: Value, b: Value, S: set<Path>)
    ensures SameUpTo(StripSet(a, S), StripSet(b, S), {}) <==> SameUpTo(a, b, S)
    decreases a
  {
    if [] !in S {
      if a.Object? && b.Object? {
        StrippedObjectsAgree(a, b, S);
      } else if a.Array? && b.Array? {
        UnderNothing(EachArrayElement);
        var T := Under(S, EachArrayElement);
        var x, y := StripSet(a, S).items, StripSet(b, S).items;
        forall i | 0 <= i < |a.items| && i < |b.items|
          ensures SameUpTo(x[i], y[i], {}) <==> SameUpTo(a.items[i], b.items[i], T)
        {
          StrippedAgree(a.items[i], b.items[i], T);
        }
      }
    }
  }

  lemma {:induction false} StrippedObjectsAgree(a: Value, b: Value, S: set<Path>)
    requires [] !in S && a.Object? && b.Object?
    ensures SameUpTo(StripSet(a, S), StripSet(b, S), {}) <==> SameUpTo(a, b, S)
    decreases a, 0
  {
    var f, g := a.fields, b.fields;
    var f', g' := StripSet(a, S).fields, StripSet(b, S).fields;
    SameKeysOfKeys(f, g, f', g');
    forall i, j | 0 <= i < |f| && 0 <= j < |g| && f[i].key == g[j].key
      ensures SameUpTo(f'[i].val, g'[j].val, Under({}, Key(f[i].key)))
         <==> SameUpTo(f[i].val, g[j].val, Under(S, Key(f[i].key)))
    {
      UnderNothing(Key(f[i].key));
      StrippedAgree(f[i].val, g[j].val, Under(S, Key(f[i].key)));
    }
  }

  /** Sorted trees are equal exactly when the trees agree up to key order. */
  lemma {:induction false} SortedAgree(a: Value, b: Value)
    requires WellFormed(a) && WellFormed(b)
    ensures SortKeys(a) == SortKeys(b) <==> SameUpTo(a, b, {})
    decreases a
  {
    hide SortBy, KeyLeq, Under, DistinctKeys;
    if a.Object? && b.Object? {
      forall i, j | 0 <= i < |a.fields| && 0 <= j < |b.fields| && a.fields[i].key == b.fields[j].key
        ensures SortKeys(a.fields[i].val) == SortKeys(b.fields[j].val)
           <==> SameUpTo(a.fields[i].val, b.fields[j].val, Under({}, Key(a.fields[i].key)))
      {
        UnderNothing(Key(a.fields[i].key));
        SortedAgree(a.fields[i].val, b.fields[j].val);
      }
      SortedFieldsAgree(a.fields, b.fields);
    } else if a.Array? && b.Array? {
      UnderNothing(EachArrayElement);
      var x, y := SortKeys(a).items, SortKeys(b).items;
      forall i | 0 <= i < |a.items| && i < |b.items|
        ensures x[i] == y[i] <==> SameUpTo(a.items[i], b.items[i], {})
      {
        SortedAgree(a.items[i], b.items[i]);
      }
    }
  }

  /** The sorted fields are equal exactly when the keys are the same and so is each key's value. */
  ghost predicate SameEntries(f: seq<Field>, g: seq<Field>) {
    && SameKeys(f, g)
    && (forall i, j :: 0 <= i < |f| && 0 <= j < |g| && f[i].key == g[j].key ==> f[i] == g[j])
  }

  lemma SortedFieldsAgree(f: seq<Field>, g: seq<Field>)
    requires DistinctKeys(f) && DistinctKeys(g)
    ensures SortBy(KeyLeq, SortVals(f)) == SortBy(KeyLeq, SortVals(g)) <==>
            && SameKeys(f, g)
            && (forall i, j :: 0 <= i < |f| && 0 <= j < |g| && f[i].key == g[j].key ==>
                  SortKeys(f[i].val) == SortKeys(g[j].val))
  {
    hide SortBy, KeyLeq, SortKeys, HasKey;
    var x, y := SortVals(f), SortVals(g);
    SameKeysOfKeys(f, g, x, y);
    SortedEntriesAgree(x, y);
    assert forall i :: 0 <= i < |f| ==> x[i] == Field(f[i].key, SortKeys(f[i].val));
    assert forall j :: 0 <= j < |g| ==> y[j] == Field(g[j].key, SortKeys(g[j].val));
  }

  lemma SortedEntriesAgree(x: seq<Field>, y: seq<Field>)
    requires DistinctKeys(x) && DistinctKeys(y)
    ensures SortBy(KeyLeq, x) == SortBy(KeyLeq, y) <==> SameEntries(x, y)
  {
    if SameEntries(x, y) {
      KeysTellApart(x);
      KeysTellApart(y);
      KeyOrder();
      SameMembersSameMultiset(x, y);
      SortOfPermutation(KeyLeq, x, y);
    }
    if SortBy(KeyLeq, x) == SortBy(KeyLeq, y) {
      SortByPermutes(KeyLeq, x);
      SortByPermutes(KeyLeq, y);
      SameMultisetSameMembers(x, y);
      assert forall i :: 0 <= i < |x| ==> x[i] in y;
      assert forall j :: 0 <= j < |y| ==> y[j] in x;
    }
  }

  lemma {:induction false} StripKeepsWellFormed(v: Value, S: set<Path>)
    requires WellFormed(v)
    ensures WellFormed(StripSet(v, S))
    decreases v
  {
    if [] !in S {
      match v
      case Object(fields) =>
        forall i | 0 <= i < |fields|
          ensures WellFormed(StripSet(fields[i].val, Under(S, Key(fields[i].key))))
        {
          StripKeepsWellFormed(fields[i].val, Under(S, Key(fields[i].key)));
        }
      case Array(items) =>
        forall i | 0 <= i < |items|
          ensures WellFormed(StripSet(items[i], Under(S, EachArrayElement)))
        {
          StripKeepsWellFormed(items[i], Under(S, EachArrayElement));
        }
      case _ =>
    }
  }

  /** Two bundles canonicalise alike exactly when they agree, up to key order, everywhere off
      the strip paths, with leaves of the same class on them. */
  lemma CanonicalFormsAgree(a: Value, b: Value, paths: seq<Path>)
    requires WellFormed(a) && WellFormed(b)
    ensures SortKeys(StripAll(a, paths)) == SortKeys(StripAll(b, paths)) <==> SameUpTo(a, b, PathSet(paths))
  {
    StripAllAtOnce(a, paths);
    StripAllAtOnce(b, paths);
    SortedAgree(StripAll(a, paths), StripAll(b, paths));
    StrippedAgree(a, b, PathSet(paths));
  }

  /** What the byte comparison of two canonicalised bundles decides. */
  lemma CanonicalBytesAgree(a: Value, b: Value)
    requires WellFormed(a) && WellFormed(b)
    ensures JsonBytes(SortKeys(StripAll(a, STRIP_PATHS))) == JsonBytes(SortKeys(StripAll(b, STRIP_PATHS)))
       <==> SameUpTo(a, b, PathSet(STRIP_PATHS))
  {
    hide *;
    JsonInjective(SortKeys(StripAll(a, STRIP_PATHS)), SortKeys(StripAll(b, STRIP_PATHS)));
    CanonicalFormsAgree(a, b, STRIP_PATHS);
  }

  lemma StripAllAtOnce(v: Value, paths: seq<Path>)
    requires WellFormed(v)
    ensures StripAll(v, paths) == StripSet(v, PathSet(paths)) && WellFormed(StripAll(v, paths))
  {
    assert {} + PathSet(paths) == PathSet(paths);
    StripSetEmpty(v);
    StripAllIsStripSet(v, {}, paths);
    StripKeepsWellFormed(v, PathSet(paths));
  }

  /** Sorting changes nothing but the order of keys. */
  lemma {:induction false} SortKeepsContent(v: Value)
    requires WellFormed(v)
    ensures WellFormed(SortKeys(v)) && SameUpTo(SortKeys(v), v, {})
    decreases v
  {
    match v
    case Object(fields) =>
      forall i | 0 <= i < |fields|
        ensures WellFormed(SortKeys(fields[i].val))
             && SameUpTo(SortKeys(fields[i].val), fields[i].val, Under({}, Key(fields[i].key)))
      {
        UnderNothing(Key(fields[i].key));
        SortKeepsContent(fields[i].val);
      }
      SortKeepsFields(fields);
    case Array(items) =>
      UnderNothing(EachArrayElement);
      forall i | 0 <= i < |items|
        ensures WellFormed(SortKeys(items[i])) && SameUpTo(SortKeys(items[i]), items[i], {})
      {
        SortKeepsContent(items[i]);
      }
    case _ =>
  }

  lemma SortKeepsFields(fields: seq<Field>)
    requires DistinctKeys(fields)
    ensures DistinctKeys(SortBy(KeyLeq, SortVals(fields)))
    ensures SameEntries(SortBy(KeyLeq, SortVals(fields)), SortVals(fields))
  {
    var x := SortVals(fields);
    var y := SortBy(KeyLeq, x);
    KeysTellApart(x);
    SortKeepsNoRepeats(KeyLeq, x);
    forall i, j | 0 <= i < j < |y|
      ensures y[i].key != y[j].key
    {
      assert y[i] in x && y[j] in x && y[i] != y[j];
    }
    assert forall i :: 0 <= i < |y| ==> y[i] in x;
    assert forall j :: 0 <= j < |x| ==> x[j] in y;
  }

  lemma SortIdempotent(v: Value)
    requires WellFormed(v)
    ensures SortKeys(SortKeys(v)) == SortKeys(v)
  {
    SortKeepsContent(v);
    SortedAgree(SortKeys(v), v);
  }
}
