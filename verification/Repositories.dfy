/** The tables a run writes, as objects updated in place.  Each write is tied to the function of
    `RunExecution` that the run protocol steps with. */
module Repositories {
  import opened Wrappers
  import E = RunExecution

  datatype StoredRow = StoredRow(id: nat, row: E.Row)

  /** The rows of one run, as the run protocol sees them. */
  function ViewOf(rows: map<(int, E.Key), StoredRow>, runId: int): map<E.Key, E.Row> {
    var keys := set r | r in rows && r.0 == runId :: r.1;
    map k | k in keys && (runId, k) in rows :: rows[(runId, k)].row
  }

  lemma ViewExact(rows: map<(int, E.Key), StoredRow>, runId: int, key: E.Key)
    ensures key in ViewOf(rows, runId) <==> (runId, key) in rows
    ensures key in ViewOf(rows, runId) ==> ViewOf(rows, runId)[key] == rows[(runId, key)].row
  {}

  lemma ViewAfterInsert(rows: map<(int, E.Key), StoredRow>, runId: int, key: E.Key, stored: StoredRow, other: int)
    ensures ViewOf(rows[(runId, key) := stored], other) ==
            if other == runId then ViewOf(rows, runId)[key := stored.row] else ViewOf(rows, other)
  {
    var after := ViewOf(rows[(runId, key) := stored], other);
    var expected := if other == runId then ViewOf(rows, runId)[key := stored.row] else ViewOf(rows, other);
    forall k: E.Key
      ensures k in after <==> k in expected
    {
      ViewExact(rows, other, k);
      ViewExact(rows[(runId, key) := stored], other, k);
    }
  }

  lemma OtherViews(rows: map<(int, E.Key), StoredRow>, runId: int, key: E.Key, stored: StoredRow)
    ensures forall other :: other != runId ==> ViewOf(rows[(runId, key) := stored], other) == ViewOf(rows, other)
  {
    forall other | other != runId ensures ViewOf(rows[(runId, key) := stored], other) == ViewOf(rows, other) {
      ViewAfterInsert(rows, runId, key, stored, other);
    }
  }

  class GenerationTable {
    var rows: map<(int, E.Key), StoredRow>
    var nextId: nat

    constructor ()
      ensures Valid() && rows == map[]
    {
      rows := map[];
      nextId := 1;
    }

    /** Ids are below the next one to hand out, and no two rows share one. */
    ghost predicate Valid()
      reads this
    {
      && (forall k :: k in rows ==> rows[k].id < nextId)
      && (forall j, k :: j in rows && k in rows && rows[j].id == rows[k].id ==> j == k)
    }

    function View(runId: int): map<E.Key, E.Row>
      reads this
    {
      ViewOf(rows, runId)
    }

    /** Identity is (run, case, repeat): the first write stores the row, a repeated one changes
        nothing, and either way the id of the stored row comes back. */
    method SaveGeneration(runId: int, key: E.Key, row: E.Row) returns (id: nat)
      requires Valid()
      modifies this
      ensures Valid()
      ensures (runId, key) in rows && rows[(runId, key)].id == id
      ensures if (runId, key) in old(rows) then rows == old(rows)
              else rows == old(rows)[(runId, key) := StoredRow(id, row)]
      ensures View(runId) == E.SaveGeneration(E.Store(old(View(runId)), map[], E.Running), key, row).rows
      ensures forall other :: other != runId ==> View(other) == old(View(other))
    {
      ViewExact(rows, runId, key);
      if (runId, key) !in rows {
        ViewAfterInsert(rows, runId, key, StoredRow(nextId, row), runId);
        OtherViews(rows, runId, key, StoredRow(nextId, row));
        rows := rows[(runId, key) := StoredRow(nextId, row)];
        nextId := nextId + 1;
      }
      id := rows[(runId, key)].id;
    }

    method GetCompletedKeys(runId: int) returns (keys: set<E.Key>)
      ensures keys == View(runId).Keys
    {
      keys := set r | r in rows && r.0 == runId :: r.1;
    }
  }

  /** What callers did to the response cache. */
  datatype CacheEvent = Put(key: string, response: string) | Delete(keys: seq<string>)

  /** The response the cache holds for a key after some events. */
  function Remembered(events: seq<CacheEvent>, key: string): Option<string> {
    if events == [] then None
    else
      var before := Remembered(events[..|events| - 1], key);
      match events[|events| - 1]
      case Put(k, response) => if k == key && before.None? then Some(response) else before
      case Delete(keys) => if key in keys then None else before
  }

  predicate Puts(e: CacheEvent, key: string) {
    e.Put? && e.key == key
  }

  predicate Deletes(e: CacheEvent, key: string) {
    e.Delete? && key in e.keys
  }

  /** Event i put a response for the key; the key has not been deleted since; and every earlier put of the
      key had been deleted by then. */
  ghost predicate IsStandingPut(events: seq<CacheEvent>, key: string, i: nat) {
    && i < |events| && Puts(events[i], key)
    && (forall j :: i < j < |events| ==> !Deletes(events[j], key))
    && (forall j :: 0 <= j < i && Puts(events[j], key) ==> DeletedBetween(events, key, j, i))
  }

  ghost predicate DeletedBetween(events: seq<CacheEvent>, key: string, j: nat, i: nat) {
    exists d :: j < d < i && d < |events| && Deletes(events[d], key)
  }

  /** No put of the key stands: each was deleted afterwards. */
  ghost predicate NothingStands(events: seq<CacheEvent>, key: string) {
    forall j :: 0 <= j < |events| && Puts(events[j], key) ==> DeletedBetween(events, key, j, |events|)
  }

  /** First writer wins: the cache answers with the first response put since the key was last deleted. */
  lemma {:induction false} ReadsStandingPut(events: seq<CacheEvent>, key: string)
    ensures Remembered(events, key).None? <==> NothingStands(events, key)
    ensures forall i: nat :: IsStandingPut(events, key, i) ==> Remembered(events, key) == Some(events[i].response)
  {
    if events != [] {
      var front, n := events[..|events| - 1], |events| - 1;
      ReadsStandingPut(front, key);
      NothingStandsStep(events, key);
      forall i: nat | IsStandingPut(events, key, i) ensures Remembered(events, key) == Some(events[i].response) {
        StandingPutStep(events, key, i);
      }
    }
  }

  lemma NothingStandsStep(events: seq<CacheEvent>, key: string)
    requires events != []
    ensures NothingStands(events, key) <==>
            !Puts(events[|events| - 1], key)
            && (NothingStands(events[..|events| - 1], key) || Deletes(events[|events| - 1], key))
  {
    var front, n := events[..|events| - 1], |events| - 1;
    forall j: nat | j < n
      ensures Puts(front[j], key) <==> Puts(events[j], key)
      ensures DeletedBetween(events, key, j, |events|) <==>
              DeletedBetween(front, key, j, n) || Deletes(events[n], key)
    {
    }
  }

  lemma StandingPutStep(events: seq<CacheEvent>, key: string, i: nat)
    requires IsStandingPut(events, key, i)
    ensures var front, n := events[..|events| - 1], |events| - 1;
            if i == n then NothingStands(front, key) else IsStandingPut(front, key, i) && !Deletes(events[n], key)
  {
    var front, n := events[..|events| - 1], |events| - 1;
    forall j: nat | j < i && Puts(events[j], key) ensures DeletedBetween(front, key, j, i) {
    }
    if i < n { assert front[i] == events[i]; }
  }

  class ResponseCacheTable {
    var responses: map<string, string>
    ghost var events: seq<CacheEvent>

    constructor ()
      ensures Valid() && events == [] && responses == map[]
    {
      responses := map[];
      events := [];
    }

    ghost predicate Valid()
      reads this
    {
      forall key :: Remembered(events, key) == if key in responses then Some(responses[key]) else None
    }

    /** The first response put since the key was last deleted. */
    method GetCache(key: string) returns (response: Option<string>)
      requires Valid()
      ensures response == Remembered(events, key)
      ensures forall i: nat :: IsStandingPut(events, key, i) ==> response == Some(events[i].response)
      ensures response.None? <==> NothingStands(events, key)
    {
      ReadsStandingPut(events, key);
      response := if key in responses then Some(responses[key]) else None;
    }

    /** First writer wins, as in the run protocol. */
    method PutCache(key: string, response: string)
      requires Valid()
      modifies this
      ensures Valid() && events == old(events) + [Put(key, response)]
      ensures responses == E.PutCache(E.Store(map[], old(responses), E.Running), key, response).cache
    {
      if key !in responses {
        responses := responses[key := response];
      }
      events := events + [Put(key, response)];
      assert events[..|events| - 1] == old(events);
    }

    /** The only write that removes entries; no pass performs it. */
    method DeleteCache(keys: seq<string>)
      requires Valid()
      modifies this
      ensures Valid() && events == old(events) + [Delete(keys)]
      ensures forall k :: k in responses <==> k in old(responses) && k !in keys
      ensures forall k :: k in responses ==> responses[k] == old(responses[k])
    {
      responses := map k | k in responses && k !in keys :: responses[k];
      events := events + [Delete(keys)];
      assert events[..|events| - 1] == old(events);
    }
  }

  class RunTable {
    var statuses: map<int, E.Status>
    var finished: set<int>

    constructor ()
      ensures statuses == map[] && finished == {}
    {
      statuses := map[];
      finished := {};
    }

    /** An unknown run is left alone; a terminal status also stamps the run finished. */
    method UpdateRunStatus(runId: int, status: E.Status)
      modifies this
      ensures statuses == if runId in old(statuses) then old(statuses)[runId := status] else old(statuses)
      ensures finished == old(finished) +
                (if runId in old(statuses) && status in {E.Completed, E.Failed, E.Cancelled} then {runId} else {})
    {
      if runId in statuses {
        statuses := statuses[runId := status];
        if status in {E.Completed, E.Failed, E.Cancelled} {
          finished := finished + {runId};
        }
      }
    }
  }
}
