/** What a diff of two manifests says, in terms of sets and multisets of document ids, and
    the grouping and merge-join functions that get there. */
module DiffSpec {
  import opened Basics
  import opened Ordering
  import opened Manifest

  datatype DiffError = Read(message: string) | Unsorted(group: Digest, previous: Digest)

  type Item = Result<ManifestEntry, DiffError>

  /** A document id with its number of occurrences. */
  datatype Group = Group(id: Digest, count: nat)

  // ------------------------------------------------------------------------
  // Digests in order
  // ------------------------------------------------------------------------

  ghost predicate StrictlyAscending(ids: seq<Digest>) {
    forall i, j :: 0 <= i < j < |ids| ==> LexLess(ids[i], ids[j])
  }

  lemma {:induction false} AscendingSize(ids: seq<Digest>)
    requires StrictlyAscending(ids)
    ensures |ToSet(ids)| == |ids|
  {
    if ids == [] {
      assert ToSet(ids) == {};
    } else {
      AscendingSize(ids[1..]);
      assert ids == [ids[0]] + ids[1..];
      assert ids[0] !in ids[1..] by {
        LexIrreflexive(ids[0]);
      }
      assert ToSet(ids) == {ids[0]} + ToSet(ids[1..]);
    }
  }

  lemma {:induction false} AscendingListUnique(a: seq<Digest>, b: seq<Digest>)
    requires StrictlyAscending(a) && StrictlyAscending(b) && ToSet(a) == ToSet(b)
    ensures a == b
    decreases |a|
  {
    AscendingSize(a);
    AscendingSize(b);
    if a != [] {
      AscendingHead(a, b);
      assert a == [a[0]] + a[1..] && b == [b[0]] + b[1..];
      LexIrreflexive(a[0]);
      forall d
        ensures d in ToSet(a[1..]) <==> d in ToSet(b[1..])
      {
        assert d in a[1..] <==> d in ToSet(a) && d != a[0];
        assert d in b[1..] <==> d in ToSet(b) && d != b[0];
      }
      AscendingListUnique(a[1..], b[1..]);
    }
  }

  lemma AscendingHead(a: seq<Digest>, b: seq<Digest>)
    requires StrictlyAscending(a) && StrictlyAscending(b) && ToSet(a) == ToSet(b) && a != [] && b != []
    ensures a[0] == b[0]
  {
    assert a[0] in ToSet(b) && b[0] in ToSet(a);
    var i :| 0 <= i < |b| && b[i] == a[0];
    var j :| 0 <= j < |a| && a[j] == b[0];
    if i > 0 && j > 0 {
      LexAsymmetric(a[0], b[0]);
    }
  }

  function InsertId(d: Digest, ids: seq<Digest>): seq<Digest> {
    if ids == [] || LexLess(d, ids[0]) then [d] + ids else [ids[0]] + InsertId(d, ids[1..])
  }

  lemma {:induction false} InsertIdSpec(d: Digest, ids: seq<Digest>)
    requires StrictlyAscending(ids) && d !in ids
    ensures StrictlyAscending(InsertId(d, ids)) && ToSet(InsertId(d, ids)) == ToSet(ids) + {d}
  {
    if ids != [] {
      if LexLess(d, ids[0]) {
        forall j | 0 <= j < |ids|
          ensures LexLess(d, ids[j])
        {
          if j > 0 {
            LexTransitive(d, ids[0], ids[j]);
          }
        }
      } else {
        assert ids == [ids[0]] + ids[1..];
        InsertIdSpec(d, ids[1..]);
        LexTrichotomy(d, ids[0]);
        var rest := InsertId(d, ids[1..]);
        forall j | 0 <= j < |rest|
          ensures LexLess(ids[0], rest[j])
        {
          assert rest[j] in ToSet(rest);
        }
      }
    }
  }

  /** The members of a set in ascending byte order. */
  ghost function InOrder(s: set<Digest>): (ids: seq<Digest>)
    ensures StrictlyAscending(ids) && ToSet(ids) == s
    decreases |s|
  {
    if s == {} then []
    else
      var d :| d in s;
      var rest := InOrder(s - {d});
      assert d !in ToSet(rest);
      InsertIdSpec(d, rest);
      InsertId(d, rest)
  }

  // ------------------------------------------------------------------------
  // Grouping
  // ------------------------------------------------------------------------

  /** How many items at the front are rows of the digest. */
  function RunLength(items: seq<Item>, d: Digest): (n: nat)
    ensures n <= |items|
    ensures forall k :: 0 <= k < n ==> items[k].Ok? && items[k].value.documentId == d
    ensures n < |items| && items[n].Ok? ==> items[n].value.documentId != d
  {
    if items == [] || items[0].Err? || items[0].value.documentId != d then 0 else 1 + RunLength(items[1..], d)
  }

  /** What `next_group` returns at this point of the stream. */
  function FirstGroup(items: seq<Item>, last: Option<Digest>): (r: Result<Option<Group>, DiffError>)
    ensures r.Ok? && r.value.Some? ==> 1 <= r.value.value.count <= |items|
  {
    if items == [] then Ok(None)
    else if items[0].Err? then Err(items[0].error)
    else
      var id := items[0].value.documentId;
      if last.Some? && LexLess(id, last.value) then Err(Unsorted(id, last.value))
      else
        var n := RunLength(items, id);
        if n < |items| && items[n].Err? then Err(items[n].error) else Ok(Some(Group(id, n)))
  }

  /** All the groups still to come. */
  function Groups(items: seq<Item>, last: Option<Digest>): Result<seq<Group>, DiffError>
    decreases |items|
  {
    match FirstGroup(items, last)
    case Err(e) => Err(e)
    case Ok(None) => Ok([])
    case Ok(Some(g)) =>
      match Groups(items[g.count..], Some(g.id))
      case Err(e) => Err(e)
      case Ok(rest) => Ok([g] + rest)
  }

  ghost predicate AllOk(items: seq<Item>) {
    forall k :: 0 <= k < |items| ==> items[k].Ok?
  }

  ghost function Rows(items: seq<Item>): (rows: seq<ManifestEntry>)
    requires AllOk(items)
    ensures |rows| == |items|
  {
    seq(|items|, k requires 0 <= k < |items| => items[k].value)
  }

  /** No read fails and the ids never descend. */
  ghost predicate Clean(items: seq<Item>) {
    AllOk(items) && SortedManifest(Rows(items))
  }

  /** No id before the last one seen. */
  ghost predicate Continues(items: seq<Item>, last: Option<Digest>) {
    items != [] && items[0].Ok? && last.Some? ==> LexLeq(last.value, items[0].value.documentId)
  }

  /** Grouping succeeds exactly on a clean stream. */
  lemma {:induction false} GroupsIffClean(items: seq<Item>, last: Option<Digest>)
    ensures Groups(items, last).Ok? <==> Clean(items) && Continues(items, last)
    decreases |items|
  {
    if items != [] && items[0].Ok? {
      var id := items[0].value.documentId;
      if last.Some? {
        LexOrder(last.value, id, id);
        if LexLess(id, last.value) {
          LexAsymmetric(id, last.value);
        }
      }
      var n := RunLength(items, id);
      GroupsIffClean(items[n..], Some(id));
      CleanSplits(items, n, id);
    }
  }

  lemma CleanSplits(items: seq<Item>, n: nat, id: Digest)
    requires 0 < n <= |items| && forall k :: 0 <= k < n ==> items[k].Ok? && items[k].value.documentId == id
    ensures Clean(items) <==> Clean(items[n..]) && Continues(items[n..], Some(id))
  {
    var rest := items[n..];
    assert forall k :: 0 <= k < |rest| ==> rest[k] == items[k + n];
    if AllOk(rest) {
      assert forall k :: n <= k < |items| ==> items[k] == rest[k - n];
      var ids, later := DocumentIds(Rows(items)), DocumentIds(Rows(rest));
      assert forall k :: n <= k < |items| ==> ids[k] == later[k - n];
      assert forall k :: 0 <= k < n ==> ids[k] == id;
      if Clean(rest) && Continues(rest, Some(id)) {
        forall i, j | 0 <= i < j < |ids|
          ensures LexLeq(ids[i], ids[j])
        {
          if i < n <= j {
            LexOrder(id, later[0], later[j - n]);
          }
        }
      }
      if Clean(items) {
        forall i, j | 0 <= i < j < |later|
          ensures LexLeq(later[i], later[j])
        {
          assert LexLeq(ids[i + n], ids[j + n]);
        }
        if rest != [] {
          assert LexLeq(ids[0], ids[n]);
        }
      }
    }
  }

  // ------------------------------------------------------------------------
  // What the groups of a clean stream are
  // ------------------------------------------------------------------------

  function GroupIds(groups: seq<Group>): (ids: seq<Digest>)
    ensures |ids| == |groups|
    ensures forall i :: 0 <= i < |ids| ==> ids[i] == groups[i].id
  {
    seq(|groups|, i requires 0 <= i < |groups| => groups[i].id)
  }

  ghost function Ids(items: seq<Item>): (ids: seq<Digest>)
    requires AllOk(items)
    ensures |ids| == |items|
  {
    DocumentIds(Rows(items))
  }

  /** The distinct ids, ascending, each with its number of occurrences. */
  ghost predicate AreGroupsOf(groups: seq<Group>, ids: seq<Digest>) {
    && StrictlyAscending(GroupIds(groups))
    && ToSet(GroupIds(groups)) == ToSet(ids)
    && forall i :: 0 <= i < |groups| ==> groups[i].count == multiset(ids)[groups[i].id]
  }

  lemma {:induction false} GroupsOfClean(items: seq<Item>, last: Option<Digest>)
    requires Groups(items, last).Ok?
    ensures AllOk(items) && AreGroupsOf(Groups(items, last).value, Ids(items))
    decreases |items|
  {
    GroupsIffClean(items, last);
    if items != [] {
      var g := FirstGroup(items, last).value.value;
      var rest := Groups(items[g.count..], Some(g.id)).value;
      GroupsOfClean(items[g.count..], Some(g.id));
      GroupsIffClean(items[g.count..], Some(g.id));
      RestIsLater(items[g.count..], g.id);
      RunThenRest(items, g, rest);
    }
  }

  /** After a maximal run every id is greater. */
  lemma RestIsLater(items: seq<Item>, id: Digest)
    requires Clean(items) && Continues(items, Some(id)) && (items != [] ==> items[0].value.documentId != id)
    ensures forall d :: d in Ids(items) ==> LexLess(id, d)
  {
    forall d | d in Ids(items)
      ensures LexLess(id, d)
    {
      var k :| 0 <= k < |items| && Ids(items)[k] == d;
      if k > 0 {
        assert LexLeq(Ids(items)[0], Ids(items)[k]);
        if LexLess(Ids(items)[0], d) {
          LexTransitive(id, Ids(items)[0], d);
        }
      }
    }
  }

  lemma RunThenRest(items: seq<Item>, g: Group, rest: seq<Group>)
    requires AllOk(items) && 0 < g.count <= |items|
    requires forall k :: 0 <= k < g.count ==> items[k].value.documentId == g.id
    requires AreGroupsOf(rest, Ids(items[g.count..])) && forall d :: d in Ids(items[g.count..]) ==> LexLess(g.id, d)
    ensures AreGroupsOf([g] + rest, Ids(items))
  {
    hide LexLess;
    var later := Ids(items[g.count..]);
    assert Ids(items) == seq(g.count, _ => g.id) + later;
    assert g.id !in later by {
      LexIrreflexive(g.id);
    }
    assert GroupIds([g] + rest) == [g.id] + GroupIds(rest);
    RunPlusRest(g.id, g.count, later);
    forall i | 0 <= i < |rest|
      ensures LexLess(g.id, rest[i].id)
    {
      assert GroupIds(rest)[i] in ToSet(later);
    }
  }

  lemma {:induction false} RunPlusRest(id: Digest, n: nat, later: seq<Digest>)
    requires 0 < n
    ensures var ids := seq(n, _ => id) + later;
            && ToSet(ids) == {id} + ToSet(later)
            && multiset(ids)[id] == n + multiset(later)[id]
            && forall d :: d != id ==> multiset(ids)[d] == multiset(later)[d]
  {
    var ids := seq(n, _ => id) + later;
    assert ids == [id] + (seq(n - 1, _ => id) + later);
    if n == 1 {
      assert seq(0, _ => id) + later == later;
    } else {
      RunPlusRest(id, n - 1, later);
    }
  }

  // ------------------------------------------------------------------------
  // The merge-join
  // ------------------------------------------------------------------------

  /** An id on both sides with its two counts. */
  datatype Match = Match(id: Digest, before: nat, after: nat)

  datatype Join = Join(removed: seq<Digest>, added: seq<Digest>, matched: seq<Match>)

  function MergeJoin(a: seq<Group>, b: seq<Group>): Join
    decreases |a| + |b|
  {
    if a == [] && b == [] then Join([], [], [])
    else if b == [] || (a != [] && LexLess(a[0].id, b[0].id)) then
      var j := MergeJoin(a[1..], b);
      j.(removed := [a[0].id] + j.removed)
    else if a == [] || LexLess(b[0].id, a[0].id) then
      var j := MergeJoin(a, b[1..]);
      j.(added := [b[0].id] + j.added)
    else
      var j := MergeJoin(a[1..], b[1..]);
      j.(matched := [Match(a[0].id, a[0].count, b[0].count)] + j.matched)
  }

  function MatchIds(matches: seq<Match>): (ids: seq<Digest>)
    ensures |ids| == |matches|
    ensures forall i :: 0 <= i < |ids| ==> ids[i] == matches[i].id
  {
    seq(|matches|, i requires 0 <= i < |matches| => matches[i].id)
  }

  ghost predicate IsJoin(j: Join, a: seq<Group>, b: seq<Group>) {
    var x, y := ToSet(GroupIds(a)), ToSet(GroupIds(b));
    && StrictlyAscending(j.removed) && ToSet(j.removed) == x - y
    && StrictlyAscending(j.added) && ToSet(j.added) == y - x
    && StrictlyAscending(MatchIds(j.matched)) && ToSet(MatchIds(j.matched)) == x * y
    && forall i :: 0 <= i < |j.matched| ==>
         Group(j.matched[i].id, j.matched[i].before) in a && Group(j.matched[i].id, j.matched[i].after) in b
  }

  /** A head before all of both sides may be put in front of any part of the result. */
  lemma FrontStaysAscending(d: Digest, ids: seq<Digest>)
    requires StrictlyAscending(ids) && forall k :: 0 <= k < |ids| ==> LexLess(d, ids[k])
    ensures StrictlyAscending([d] + ids) && ToSet([d] + ids) == {d} + ToSet(ids) && d !in ids
  {
    LexIrreflexive(d);
  }

  lemma GroupTail(a: seq<Group>)
    requires a != [] && StrictlyAscending(GroupIds(a))
    ensures StrictlyAscending(GroupIds(a[1..])) && ToSet(GroupIds(a)) == {a[0].id} + ToSet(GroupIds(a[1..]))
    ensures forall d :: d in ToSet(GroupIds(a[1..])) ==> LexLess(a[0].id, d)
    ensures a[0].id !in ToSet(GroupIds(a[1..]))
  {
    assert GroupIds(a) == [a[0].id] + GroupIds(a[1..]);
    assert GroupIds(a)[1..] == GroupIds(a[1..]);
    LexIrreflexive(a[0].id);
  }

  /** Every id of a side is after d. */
  ghost predicate AllAfter(d: Digest, a: seq<Group>) {
    forall x :: x in ToSet(GroupIds(a)) ==> LexLess(d, x)
  }

  lemma HeadBefore(d: Digest, b: seq<Group>)
    requires StrictlyAscending(GroupIds(b)) && (b != [] ==> LexLess(d, b[0].id))
    ensures AllAfter(d, b) && d !in ToSet(GroupIds(b))
  {
    forall x | x in ToSet(GroupIds(b))
      ensures LexLess(d, x)
    {
      var k :| 0 <= k < |b| && GroupIds(b)[k] == x;
      if k > 0 {
        LexTransitive(d, b[0].id, GroupIds(b)[k]);
      }
    }
    LexIrreflexive(d);
  }

  lemma {:induction false} MergeJoinSpec(a: seq<Group>, b: seq<Group>)
    requires StrictlyAscending(GroupIds(a)) && StrictlyAscending(GroupIds(b))
    ensures IsJoin(MergeJoin(a, b), a, b)
    decreases |a| + |b|
  {
    if a == [] && b == [] {
    } else if b == [] || (a != [] && LexLess(a[0].id, b[0].id)) {
      GroupTail(a);
      MergeJoinSpec(a[1..], b);
      HeadBefore(a[0].id, b);
      JoinRemoved(a, b, MergeJoin(a[1..], b));
    } else if a == [] || LexLess(b[0].id, a[0].id) {
      GroupTail(b);
      MergeJoinSpec(a, b[1..]);
      HeadBefore(b[0].id, a);
      JoinAdded(a, b, MergeJoin(a, b[1..]));
    } else {
      GroupTail(a);
      GroupTail(b);
      LexTrichotomy(a[0].id, b[0].id);
      MergeJoinSpec(a[1..], b[1..]);
      JoinMatched(a, b, MergeJoin(a[1..], b[1..]));
    }
  }

  lemma JoinRemoved(a: seq<Group>, b: seq<Group>, j: Join)
    requires a != [] && StrictlyAscending(GroupIds(a)) && AllAfter(a[0].id, b) && a[0].id !in ToSet(GroupIds(b))
    requires IsJoin(j, a[1..], b)
    ensures IsJoin(j.(removed := [a[0].id] + j.removed), a, b)
  {
    GroupTail(a);
    forall k | 0 <= k < |j.removed|
      ensures LexLess(a[0].id, j.removed[k])
    {
      assert j.removed[k] in ToSet(j.removed);
    }
    FrontStaysAscending(a[0].id, j.removed);
  }

  lemma JoinAdded(a: seq<Group>, b: seq<Group>, j: Join)
    requires b != [] && StrictlyAscending(GroupIds(b)) && AllAfter(b[0].id, a) && b[0].id !in ToSet(GroupIds(a))
    requires IsJoin(j, a, b[1..])
    ensures IsJoin(j.(added := [b[0].id] + j.added), a, b)
  {
    GroupTail(b);
    forall k | 0 <= k < |j.added|
      ensures LexLess(b[0].id, j.added[k])
    {
      assert j.added[k] in ToSet(j.added);
    }
    FrontStaysAscending(b[0].id, j.added);
  }

  lemma JoinMatched(a: seq<Group>, b: seq<Group>, j: Join)
    requires a != [] && b != [] && a[0].id == b[0].id
    requires StrictlyAscending(GroupIds(a)) && StrictlyAscending(GroupIds(b)) && IsJoin(j, a[1..], b[1..])
    ensures IsJoin(j.(matched := [Match(a[0].id, a[0].count, b[0].count)] + j.matched), a, b)
  {
    hide LexLess, GroupIds;
    GroupTail(a);
    GroupTail(b);
    var m := Match(a[0].id, a[0].count, b[0].count);
    forall k | 0 <= k < |j.matched|
      ensures LexLess(a[0].id, MatchIds(j.matched)[k])
    {
      assert MatchIds(j.matched)[k] in ToSet(MatchIds(j.matched));
    }
    FrontStaysAscending(a[0].id, MatchIds(j.matched));
    assert MatchIds([m] + j.matched) == [a[0].id] + MatchIds(j.matched);
  }
}
