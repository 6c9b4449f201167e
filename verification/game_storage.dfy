/**
  `GameStorage` from src/GameStorage.ts: an append-only list of game results,
  kept in memory and mirrored under one key of the browser's local storage.
  The local storage is a map from keys to the stored lists (the JSON text
  round trip is taken to give back the list it was made from), the clock
  reading for `new Date()` is a parameter, and the class is a value: every
  operation returns the new storage object and the new local storage.
 */
module GameStorageModel {

  datatype GameResult = GameResult(minutes: int, seconds: int, milliseconds: int)

  /** A clock reading, as taken by `new Date()`. */
  datatype Instant = Instant(epochMillis: int)

  datatype GameResultRecord = GameResultRecord(date: Instant, result: GameResult)

  type LocalStore = map<string, seq<GameResultRecord>>

  const GameResultsStorageId: string := "snakeGame:gameResults"

  datatype GameStorage = GameStorage(data: seq<GameResultRecord>)

  /** The storage object and the local storage after an operation. */
  datatype Saved = Saved(storage: GameStorage, local: LocalStore)

  /** The in-memory list and the persisted copy agree. */
  predicate InSync(g: GameStorage, local: LocalStore) {
    GameResultsStorageId in local && local[GameResultsStorageId] == g.data
  }

  /** `new GameStorage()`: starts from what local storage holds under the
      results key, or from the empty list when nothing is stored there. */
  function New(local: LocalStore): (g: GameStorage)
  {
    if GameResultsStorageId in local then GameStorage(local[GameResultsStorageId]) else GameStorage([])
  }

  /** Constructing from local storage recovers any list the persisted copy
      agrees with. */
  lemma ReloadLaw(g: GameStorage, local: LocalStore)
    requires InSync(g, local)
    ensures New(local) == g
  {
  }

  /** A new storage object has no results exactly when nothing is stored
      under the results key or the stored list is empty. */
  lemma NewStartsEmpty(local: LocalStore)
    ensures GetResults(New(local)) == [] <==>
              GameResultsStorageId !in local || local[GameResultsStorageId] == []
  {
  }

  /** `saveResult(result)`: appends a record stamped `now` and writes the
      whole list back under the results key. */
  function SaveResult(g: GameStorage, local: LocalStore, result: GameResult, now: Instant): (s: Saved)
    ensures |s.storage.data| == |g.data| + 1
    ensures s.storage.data[..|g.data|] == g.data
    ensures s.storage.data[|g.data|].result == result
    ensures s.storage.data[|g.data|].date == now
    ensures InSync(s.storage, s.local)
    ensures forall k :: k != GameResultsStorageId ==> (k in s.local <==> k in local)
    ensures forall k :: k != GameResultsStorageId && k in local ==> s.local[k] == local[k]
  {
    var data := g.data + [GameResultRecord(now, result)];
    Saved(GameStorage(data), local[GameResultsStorageId := data])
  }

  /** `getResults()`: the list as it stands. */
  function GetResults(g: GameStorage): seq<GameResultRecord> {
    g.data
  }

  /** Saving a series of results in order, one `saveResult` call each. */
  function SaveAll(g: GameStorage, local: LocalStore, results: seq<GameResult>, clock: seq<Instant>): (s: Saved)
    requires |clock| == |results|
    decreases |results|
  {
    if |results| == 0 then Saved(g, local)
    else
      var first := SaveResult(g, local, results[0], clock[0]);
      SaveAll(first.storage, first.local, results[1..], clock[1..])
  }

  /** After a series of saves, `getResults()` is the earlier list followed by
      one record per save, in order, each holding its result and clock
      reading. */
  lemma {:induction false} SaveAllAppends(g: GameStorage, local: LocalStore, results: seq<GameResult>, clock: seq<Instant>)
    requires |clock| == |results|
    ensures var r := GetResults(SaveAll(g, local, results, clock).storage);
            && |r| == |g.data| + |results|
            && r[..|g.data|] == g.data
            && forall i :: 0 <= i < |results| ==> r[|g.data| + i] == GameResultRecord(clock[i], results[i])
    decreases |results|
  {
    if |results| > 0 {
      var first := SaveResult(g, local, results[0], clock[0]);
      SaveAllAppends(first.storage, first.local, results[1..], clock[1..]);
      var r := GetResults(SaveAll(g, local, results, clock).storage);
      forall i | 0 <= i < |results|
        ensures r[|g.data| + i] == GameResultRecord(clock[i], results[i])
      {
        if i > 0 {
          assert r[|first.storage.data| + (i - 1)] == GameResultRecord(clock[1..][i - 1], results[1..][i - 1]);
        }
      }
    }
  }

  /** Once anything has been saved, the list and the persisted copy agree,
      and a storage object created afresh from local storage sees exactly
      the same list. */
  lemma {:induction false} ReloadSeesSaves(g: GameStorage, local: LocalStore, results: seq<GameResult>, clock: seq<Instant>)
    requires |clock| == |results| && |results| > 0
    ensures var s := SaveAll(g, local, results, clock);
            InSync(s.storage, s.local) && New(s.local) == s.storage
    decreases |results|
  {
    var first := SaveResult(g, local, results[0], clock[0]);
    if |results| > 1 {
      ReloadSeesSaves(first.storage, first.local, results[1..], clock[1..]);
    }
  }

  /** Saving never touches any other key of local storage. */
  lemma {:induction false} SaveAllKeepsOtherKeys(g: GameStorage, local: LocalStore, results: seq<GameResult>, clock: seq<Instant>, key: string)
    requires |clock| == |results| && key != GameResultsStorageId
    ensures var s := SaveAll(g, local, results, clock);
            (key in s.local <==> key in local) && (key in local ==> s.local[key] == local[key])
    decreases |results|
  {
    if |results| > 0 {
      var first := SaveResult(g, local, results[0], clock[0]);
      SaveAllKeepsOtherKeys(first.storage, first.local, results[1..], clock[1..], key);
    }
  }
}
