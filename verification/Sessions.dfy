/** Session records and the ways stores select and order them. */
module Sessions {
  import opened Js

  datatype SessionData = SessionData(userId: string, device: Option<string>, createTime: int)

  type Table = map<string, SessionData>

  function OfUser(t: Table, user: string): set<string> {
    set id | id in t && t[id].userId == user
  }

  function OnDevice(t: Table, device: string): set<string> {
    set id | id in t && t[id].device == Some(device)
  }

  function OfUserOnDevice(t: Table, user: string, device: string): set<string> {
    OfUser(t, user) * OnDevice(t, device)
  }

  /** The records of the sessions listed. */
  function RecordsOf(t: Table, ids: seq<string>): seq<SessionData>
    requires forall id :: id in ids ==> id in t
  {
    seq(|ids|, i requires 0 <= i < |ids| => t[ids[i]])
  }

  /** The records of the sessions of `scope`, each once, in some order. */
  ghost predicate RecordsOfAll(t: Table, scope: set<string>, records: seq<SessionData>) {
    exists ids: seq<string> :: Lists(t, scope, ids) && records == RecordsOf(t, ids)
  }

  ghost predicate Lists(t: Table, scope: set<string>, ids: seq<string>) {
    NoDup(ids) && (forall id :: id in ids <==> id in scope) && (forall id :: id in ids ==> id in t)
  }

  /** Every id of `scope` once, oldest session first. */
  ghost predicate OldestFirst(t: Table, scope: set<string>, ids: seq<string>) {
    && NoDup(ids) && (forall id :: id in ids <==> id in scope)
    && (forall i, j :: 0 <= i < j < |ids| && ids[i] in t && ids[j] in t ==>
      t[ids[i]].createTime <= t[ids[j]].createTime)
  }

  /** `sort` by creation time: stable, so sessions of one instant keep their order. */
  function ByCreateTime(t: Table, ids: seq<string>): (r: seq<string>)
    requires forall id :: id in ids ==> id in t
    ensures forall id :: id in r <==> id in ids
    ensures |r| == |ids|
  {
    if ids == [] then []
    else InsertByTime(t, ids[0], ByCreateTime(t, ids[1..]))
  }

  function InsertByTime(t: Table, id: string, sorted: seq<string>): (r: seq<string>)
    requires id in t && forall x :: x in sorted ==> x in t
    ensures forall x :: x in r <==> x == id || x in sorted
    ensures |r| == |sorted| + 1
  {
    if sorted == [] || t[id].createTime <= t[sorted[0]].createTime then [id] + sorted
    else [sorted[0]] + InsertByTime(t, id, sorted[1..])
  }

  ghost predicate Ascending(t: Table, ids: seq<string>)
    requires forall id :: id in ids ==> id in t
  {
    forall i, j :: 0 <= i < j < |ids| ==> t[ids[i]].createTime <= t[ids[j]].createTime
  }

  lemma {:induction false} InsertAscending(t: Table, id: string, sorted: seq<string>)
    requires id in t && (forall x :: x in sorted ==> x in t) && Ascending(t, sorted) && NoDup(sorted) && id !in sorted
    ensures Ascending(t, InsertByTime(t, id, sorted)) && NoDup(InsertByTime(t, id, sorted))
  {
    if sorted == [] || t[id].createTime <= t[sorted[0]].createTime {
      NoDupCons(id, sorted);
    } else {
      var rest := InsertByTime(t, id, sorted[1..]);
      assert sorted == [sorted[0]] + sorted[1..];
      NoDupCons(sorted[0], sorted[1..]);
      InsertAscending(t, id, sorted[1..]);
      NoDupCons(sorted[0], rest);
      forall k | 0 <= k < |rest| ensures t[sorted[0]].createTime <= t[rest[k]].createTime {
        if rest[k] != id {
          assert rest[k] in sorted[1..];
          var m :| 0 <= m < |sorted[1..]| && sorted[1..][m] == rest[k];
          assert sorted[m + 1] == rest[k];
        }
      }
    }
  }

  lemma {:induction false} ByCreateTimeSorts(t: Table, ids: seq<string>)
    requires (forall id :: id in ids ==> id in t) && NoDup(ids)
    ensures Ascending(t, ByCreateTime(t, ids)) && NoDup(ByCreateTime(t, ids))
  {
    if ids != [] {
      assert ids == [ids[0]] + ids[1..];
      NoDupCons(ids[0], ids[1..]);
      ByCreateTimeSorts(t, ids[1..]);
      InsertAscending(t, ids[0], ByCreateTime(t, ids[1..]));
    }
  }

  /** Sorting a listing without repetition gives the oldest-first listing of what it names. */
  lemma SortedListing(t: Table, ids: seq<string>, scope: set<string>)
    requires NoDup(ids) && (forall id :: id in ids <==> id in scope) && (forall id :: id in scope ==> id in t)
    ensures OldestFirst(t, scope, ByCreateTime(t, ids))
  {
    ByCreateTimeSorts(t, ids);
  }
}
