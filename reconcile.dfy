/**
 * How the page's bookmark list reacts to the backend: the realtime INSERT
 * and DELETE handlers and the result of the initial fetch, each a function
 * from the previous list to the next one.
 */
module Reconcile {

  import opened Optional
  import opened Bookmarks
  import Seqs

  /** INSERT handler: leave the list alone if some entry already has the row's id, else put the row in front. */
  function ApplyInsert(prev: seq<Bookmark>, row: Bookmark): (r: seq<Bookmark>)
    ensures Ids(r) == Ids(prev) + {row.id}
    ensures r == prev <==> row.id in Ids(prev)
    ensures |prev| <= |r| <= |prev| + 1 && r[|r| - |prev|..] == prev
    ensures row.id !in Ids(prev) ==> r[0] == row
    ensures DistinctIds(prev) ==> DistinctIds(r)
  {
    if row.id in Ids(prev) then prev else IdsCons(row, prev); [row] + prev
  }

  lemma IdsCons(row: Bookmark, prev: seq<Bookmark>)
    ensures Ids([row] + prev) == {row.id} + Ids(prev)
  {
    var s := [row] + prev;
    assert forall j :: 0 <= j < |prev| ==> s[j + 1] == prev[j];
    forall x | x in Ids(s) ensures x in {row.id} + Ids(prev) {
      var j :| 0 <= j < |s| && s[j].id == x;
      if j > 0 { assert prev[j - 1].id == x; }
    }
    forall x | x in Ids(prev) ensures x in Ids(s) {
      var j :| 0 <= j < |prev| && prev[j].id == x;
      assert s[j + 1].id == x;
    }
    assert s[0].id == row.id;
  }

  /** The predicate `b => b.id !== id` of the DELETE handler's filter. */
  function KeepOther(id: Id): Bookmark -> bool {
    (b: Bookmark) => b.id != id
  }

  /** `prev.filter(b => b.id !== id)`. */
  function RemoveId(prev: seq<Bookmark>, id: Id): (r: seq<Bookmark>)
    ensures |r| <= |prev|
    ensures forall k :: 0 <= k < |r| ==> r[k].id != id
  {
    Seqs.Filter(prev, KeepOther(id))
  }

  /** The id a DELETE payload names: `payload.old?.id` when it is truthy, otherwise `payload.id`. */
  datatype DeletePayload = DeletePayload(oldId: Option<Id>, id: Option<Id>)

  predicate Truthy(id: Id) {
    id != 0
  }

  function DeleteTarget(p: DeletePayload): (r: Option<Id>)
    ensures r == p.oldId || r == p.id
    ensures r != p.id ==> r.Some? && Truthy(r.value)
    ensures p.oldId.None? ==> r == p.id
    ensures p.oldId.Some? && Truthy(p.oldId.value) ==> r == p.oldId
  {
    if p.oldId.Some? && Truthy(p.oldId.value) then p.oldId else p.id
  }

  /** DELETE handler. An `undefined` target differs from every id, so nothing is removed. */
  function ApplyDelete(prev: seq<Bookmark>, p: DeletePayload): (r: seq<Bookmark>)
    ensures |r| <= |prev|
    ensures forall k :: 0 <= k < |r| ==> DeleteTarget(p) != Some(r[k].id)
  {
    match DeleteTarget(p)
    case None => prev
    case Some(id) => RemoveId(prev, id)
  }

  /** Outcome of the initial `select` ordered by `created_at` descending; `data` may be `null`. */
  datatype FetchResult = FetchFailed | Fetched(data: Option<seq<Bookmark>>)

  /** On error the list stays as it is; on success it is replaced by `data || []`. */
  function ApplyFetch(prev: seq<Bookmark>, res: FetchResult): seq<Bookmark> {
    match res
    case FetchFailed => prev
    case Fetched(None) => []
    case Fetched(Some(d)) => d
  }

  /** The DELETE handler removes exactly the entries carrying the id and keeps every other one in order. */
  lemma RemoveIdSelects(prev: seq<Bookmark>, id: Id) returns (idx: seq<int>)
    ensures Seqs.IsSelection(RemoveId(prev, id), prev, KeepOther(id), idx)
    ensures forall j :: 0 <= j < |prev| ==> (prev[j].id != id <==> j in idx)
  {
    idx := Seqs.FilterSelects(prev, KeepOther(id));
  }

  /** Removing an id takes exactly that id out of the list, never grows it, and keeps ids distinct. */
  lemma RemoveIdFacts(prev: seq<Bookmark>, id: Id)
    ensures Ids(RemoveId(prev, id)) == Ids(prev) - {id}
    ensures |RemoveId(prev, id)| <= |prev|
    ensures id !in Ids(prev) ==> RemoveId(prev, id) == prev
    ensures DistinctIds(prev) ==> DistinctIds(RemoveId(prev, id))
  {
    var idx := RemoveIdSelects(prev, id);
    RemoveIdIds(prev, id, idx);
    if id !in Ids(prev) {
      assert forall j :: 0 <= j < |prev| ==> KeepOther(id)(prev[j]);
      Seqs.FilterKeepsAll(prev, KeepOther(id));
    }
    if DistinctIds(prev) {
      SelectionKeepsDistinct(RemoveId(prev, id), prev, KeepOther(id), idx);
    }
  }

  lemma RemoveIdIds(prev: seq<Bookmark>, id: Id, idx: seq<int>)
    requires Seqs.IsSelection(RemoveId(prev, id), prev, KeepOther(id), idx)
    ensures Ids(RemoveId(prev, id)) == Ids(prev) - {id}
  {
  }

  /** A subsequence taken at increasing positions of a list with distinct ids has distinct ids. */
  lemma SelectionKeepsDistinct(r: seq<Bookmark>, s: seq<Bookmark>, keep: Bookmark -> bool, idx: seq<int>)
    requires Seqs.IsSelection(r, s, keep, idx) && DistinctIds(s)
    ensures DistinctIds(r)
  {
  }

  /** Applying the same INSERT event twice has the effect of applying it once. */
  lemma InsertIdempotent(prev: seq<Bookmark>, row: Bookmark)
    ensures ApplyInsert(ApplyInsert(prev, row), row) == ApplyInsert(prev, row)
  {
  }

  /** Applying the same DELETE event twice has the effect of applying it once. */
  lemma DeleteIdempotent(prev: seq<Bookmark>, p: DeletePayload)
    ensures ApplyDelete(ApplyDelete(prev, p), p) == ApplyDelete(prev, p)
  {
    if DeleteTarget(p).Some? {
      Seqs.FilterIdempotent(prev, KeepOther(DeleteTarget(p).value));
    }
  }

  /** The DELETE handler takes the target id out of the list, never grows it, and is a no-op for an absent id. */
  lemma DeleteFacts(prev: seq<Bookmark>, p: DeletePayload)
    ensures Ids(ApplyDelete(prev, p)) == if DeleteTarget(p).Some? then Ids(prev) - {DeleteTarget(p).value} else Ids(prev)
    ensures |ApplyDelete(prev, p)| <= |prev|
    ensures DeleteTarget(p).None? || DeleteTarget(p).value !in Ids(prev) ==> ApplyDelete(prev, p) == prev
    ensures DistinctIds(prev) ==> DistinctIds(ApplyDelete(prev, p))
  {
    if DeleteTarget(p).Some? {
      RemoveIdFacts(prev, DeleteTarget(p).value);
    }
  }

  /** An INSERT of a new id followed by a DELETE of that id leaves the list as it was. */
  lemma InsertThenRemoveRestores(prev: seq<Bookmark>, row: Bookmark)
    requires row.id !in Ids(prev)
    ensures RemoveId(ApplyInsert(prev, row), row.id) == prev
  {
    assert ApplyInsert(prev, row) == [row] + prev;
    assert ([row] + prev)[1..] == prev;
    RemoveIdFacts(prev, row.id);
  }

  /** An INSERT and a DELETE of different ids commute. */
  lemma InsertRemoveCommute(prev: seq<Bookmark>, row: Bookmark, id: Id)
    requires row.id != id
    ensures RemoveId(ApplyInsert(prev, row), id) == ApplyInsert(RemoveId(prev, id), row)
  {
    RemoveIdFacts(prev, id);
    if row.id !in Ids(prev) {
      assert ([row] + prev)[1..] == prev;
    }
  }

  /** Two DELETEs commute. */
  lemma RemovesCommute(prev: seq<Bookmark>, a: Id, b: Id)
    ensures RemoveId(RemoveId(prev, a), b) == RemoveId(RemoveId(prev, b), a)
  {
    Seqs.FilterCommutes(prev, KeepOther(a), KeepOther(b));
  }

  /** What reaches the list: a realtime INSERT or DELETE, or the response to the initial fetch. */
  datatype Event = Insert(row: Bookmark) | Delete(payload: DeletePayload) | FetchResponse(result: FetchResult)

  function Step(s: seq<Bookmark>, e: Event): seq<Bookmark> {
    match e
    case Insert(row) => ApplyInsert(s, row)
    case Delete(p) => ApplyDelete(s, p)
    case FetchResponse(res) => ApplyFetch(s, res)
  }

  /** The list after the events have been handled one by one, each to completion. */
  function Replay(s: seq<Bookmark>, evs: seq<Event>): seq<Bookmark>
    decreases |evs|
  {
    if evs == [] then s else Replay(Step(s, evs[0]), evs[1..])
  }

  /** Reference for the ids one event leaves: an INSERT adds its id, a DELETE drops its target, a fetch sets them. */
  function NextIds(ids: set<Id>, e: Event): set<Id> {
    match e
    case Insert(row) => ids + {row.id}
    case Delete(p) => if DeleteTarget(p).Some? then ids - {DeleteTarget(p).value} else ids
    case FetchResponse(FetchFailed) => ids
    case FetchResponse(Fetched(d)) => if d.Some? then Ids(d.value) else {}
  }

  function IdsAfter(ids: set<Id>, evs: seq<Event>): set<Id>
    decreases |evs|
  {
    if evs == [] then ids else IdsAfter(NextIds(ids, evs[0]), evs[1..])
  }

  /** One event changes the list's ids as the reference says. */
  lemma StepTracksIds(s: seq<Bookmark>, e: Event)
    ensures Ids(Step(s, e)) == NextIds(Ids(s), e)
  {
    match e
    case Insert(row) =>
    case Delete(p) => DeleteFacts(s, p);
    case FetchResponse(res) =>
  }

  /** After any trace of events, the list holds exactly the ids created and not afterwards deleted. */
  lemma {:induction false} ReplayTracksIds(s: seq<Bookmark>, evs: seq<Event>)
    ensures Ids(Replay(s, evs)) == IdsAfter(Ids(s), evs)
    decreases |evs|
  {
    if evs != [] {
      StepTracksIds(s, evs[0]);
      ReplayTracksIds(Step(s, evs[0]), evs[1..]);
    }
  }

  /** Every successful fetch in the trace delivered rows with distinct ids, as the primary key guarantees. */
  predicate FetchesDistinct(evs: seq<Event>) {
    forall k :: 0 <= k < |evs| && evs[k].FetchResponse? && evs[k].result.Fetched? && evs[k].result.data.Some? ==>
      DistinctIds(evs[k].result.data.value)
  }

  /** No trace of events ever puts two entries with the same id in the list. */
  lemma {:induction false} ReplayKeepsDistinct(s: seq<Bookmark>, evs: seq<Event>)
    requires DistinctIds(s) && FetchesDistinct(evs)
    ensures DistinctIds(Replay(s, evs))
    decreases |evs|
  {
    if evs != [] {
      if evs[0].Delete? {
        DeleteFacts(s, evs[0].payload);
      }
      assert FetchesDistinct(evs[1..]) by {
        forall k | 0 <= k < |evs| - 1 ensures evs[1..][k] == evs[k + 1] { }
      }
      ReplayKeepsDistinct(Step(s, evs[0]), evs[1..]);
    }
  }

  /** Handling a trace in two parts is handling it in one. */
  lemma {:induction false} ReplayAppend(s: seq<Bookmark>, a: seq<Event>, b: seq<Event>)
    ensures Replay(s, a + b) == Replay(Replay(s, a), b)
    decreases |a|
  {
    if a != [] {
      assert (a + b)[0] == a[0] && (a + b)[1..] == a[1..] + b;
      ReplayAppend(Step(s, a[0]), a[1..], b);
    } else {
      assert a + b == b;
    }
  }

  /** The event leaves an entry with this id in the list if there was one. */
  predicate KeepsId(e: Event, id: Id) {
    match e
    case Insert(_) => true
    case Delete(p) => DeleteTarget(p) != Some(id)
    case FetchResponse(FetchFailed) => true
    case FetchResponse(Fetched(d)) => d.Some? && id in Ids(d.value)
  }

  /** An id survives every event that keeps it. */
  lemma {:induction false} KeptIdSurvives(s: seq<Bookmark>, evs: seq<Event>, id: Id)
    requires id in Ids(s)
    requires forall k :: 0 <= k < |evs| ==> KeepsId(evs[k], id)
    ensures id in Ids(Replay(s, evs))
    decreases |evs|
  {
    if evs != [] {
      if evs[0].Delete? {
        DeleteFacts(s, evs[0].payload);
      }
      assert forall k :: 0 <= k < |evs| - 1 ==> evs[1..][k] == evs[k + 1];
      KeptIdSurvives(Step(s, evs[0]), evs[1..], id);
    }
  }

  /**
   * At-least-once delivery: an INSERT delivered again later is a no-op as long as
   * nothing in between removed its id.
   */
  lemma RedeliveredInsertIsNoop(s: seq<Bookmark>, row: Bookmark, mid: seq<Event>)
    requires forall k :: 0 <= k < |mid| ==> KeepsId(mid[k], row.id)
    ensures Replay(s, [Insert(row)] + mid + [Insert(row)]) == Replay(s, [Insert(row)] + mid)
  {
    var first := [Insert(row)] + mid;
    ReplayAppend(s, first, [Insert(row)]);
    ReplayAppend(s, [Insert(row)], mid);
    KeptIdSurvives(ApplyInsert(s, row), mid, row.id);
  }
}
