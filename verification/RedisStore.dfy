/**
 The Redis session store: one key per session, and a set of session ids per user and per device, all
 with expiry. Time is in whole seconds.
 */
module RedisStore {
  import opened Js
  import opened Redis
  import opened Sessions
  import SessionTable

  datatype Server = Server(sessions: Keys<SessionData>, users: Keys<set<string>>, devices: Keys<set<string>>)

  const EMPTY_SERVER: Server := Server(map[], map[], map[])

  /** How much longer than its sessions an index is kept. */
  const INDEX_GRACE := 60

  function IndexAdd(m: Keys<set<string>>, now: int, k: string, id: string, ttl: Option<int>): Keys<set<string>> {
    var m1 := Sadd(m, now, k, id);
    if ttl.Some? then Redis.Expire(m1, now, k, ttl.value + INDEX_GRACE) else m1
  }

  function SetSession(s: Server, now: int, id: string, data: SessionData, ttl: Option<int>): Server {
    Server(Put(s.sessions, now, id, data, ttl), IndexAdd(s.users, now, data.userId, id, ttl),
           if Truthy(data.device) then IndexAdd(s.devices, now, data.device.value, id, ttl) else s.devices)
  }

  function DeleteSession(s: Server, now: int, id: string): Server {
    match Redis.Get(s.sessions, now, id)
    case None => s.(sessions := s.sessions - {id})
    case Some(data) =>
      Server(s.sessions - {id}, Srem(s.users, now, data.userId, id),
             if Truthy(data.device) then Srem(s.devices, now, data.device.value, id) else s.devices)
  }

  /** The sessions that are there. */
  function LiveTable(s: Server, now: int): Table {
    map id | id in s.sessions && s.sessions[id].Alive(now) :: s.sessions[id].value
  }

  /** The devices of the live sessions among ids. */
  function DevicesOf(s: Server, now: int, ids: set<string>): set<string> {
    set id | id in ids && Live(s.sessions, now, id) && Truthy(s.sessions[id].value.device)
      :: s.sessions[id].value.device.value
  }

  function DeleteUser(s: Server, now: int, user: string): Server {
    var ids := Smembers(s.users, now, user);
    if ids == {} then s
    else Server(s.sessions - ids, s.users - {user}, SremFrom(s.devices, now, DevicesOf(s, now, ids), ids))
  }

  /** Of the listed ids, those of live sessions. */
  ghost function There(s: Server, now: int, ids: set<string>): set<string> {
    set id | id in ids && id in LiveTable(s, now)
  }

  /** Of the listed ids, those of live sessions on the device. */
  function OnIt(s: Server, now: int, ids: set<string>, device: string): set<string> {
    set id | id in ids && Live(s.sessions, now, id) && s.sessions[id].value.device == Some(device)
  }

  /** Of the listed ids, those whose session is gone. */
  function Gone(s: Server, now: int, ids: set<string>): set<string> {
    set id | id in ids && !Live(s.sessions, now, id)
  }

  function DeleteUserOnDevice(s: Server, now: int, user: string, device: string): Server {
    var ids := Smembers(s.users, now, user);
    var drop := OnIt(s, now, ids, device) + Gone(s, now, ids);
    if ids == {} then s
    else Server(s.sessions - OnIt(s, now, ids, device), SremAll(s.users, now, user, drop),
                SremAll(s.devices, now, device, drop))
  }

  function Renew(s: Server, now: int, id: string, ttl: Option<int>): Server {
    if ttl.Some? then s.(sessions := Redis.Expire(s.sessions, now, id, ttl.value)) else s
  }

  // ---------- the object ----------

  class RedisStore {
    var sessions: Keys<SessionData>
    var users: Keys<set<string>>
    var devices: Keys<set<string>>

    function State(): Server
      reads this
    {
      Server(sessions, users, devices)
    }

    constructor ()
      ensures State() == EMPTY_SERVER
    {
      sessions, users, devices := map[], map[], map[];
    }

    method Set(sessionId: string, data: SessionData, ttl: Option<int>, now: int)
      modifies this
      ensures State() == SetSession(old(State()), now, sessionId, data, SessionTable.Seconds(ttl))
    {
      var ttlSeconds := SessionTable.Seconds(ttl);
      sessions := Put(sessions, now, sessionId, data, ttlSeconds);
      users := Sadd(users, now, data.userId, sessionId);
      if ttlSeconds.Some? {
        users := Redis.Expire(users, now, data.userId, ttlSeconds.value + INDEX_GRACE);
      }
      if Truthy(data.device) {
        devices := Sadd(devices, now, data.device.value, sessionId);
        if ttlSeconds.Some? {
          devices := Redis.Expire(devices, now, data.device.value, ttlSeconds.value + INDEX_GRACE);
        }
      }
    }

    method Get(sessionId: string, now: int) returns (data: Option<SessionData>)
      ensures data.Some? <==> sessionId in LiveTable(State(), now)
      ensures data.Some? ==> data.value == LiveTable(State(), now)[sessionId]
    {
      data := Redis.Get(sessions, now, sessionId);
    }

    method Delete(sessionId: string, now: int)
      modifies this
      ensures State() == DeleteSession(old(State()), now, sessionId)
    {
      var value := Redis.Get(sessions, now, sessionId);
      sessions := sessions - {sessionId};
      if value.Some? {
        users := Srem(users, now, value.value.userId, sessionId);
        if Truthy(value.value.device) {
          devices := Srem(devices, now, value.value.device.value, sessionId);
        }
      }
    }

    /** Collects the devices of the user's sessions, deletes the sessions, then cleans each device index. */
    method DeleteByUserId(userId: string, now: int)
      modifies this
      ensures State() == DeleteUser(old(State()), now, userId)
    {
      ghost var s0 := State();
      var ids := Smembers(users, now, userId);
      if ids == {} {
        return;
      }
      var keys: set<string>, todo := {}, ids;
      while todo != {}
        invariant todo <= ids && keys == DevicesOf(s0, now, ids - todo)
      {
        var id :| id in todo;
        todo := todo - {id};
        assert ids - todo == (ids - (todo + {id})) + {id};
        var value := Redis.Get(sessions, now, id);
        if value.Some? && Truthy(value.value.device) {
          keys := keys + {value.value.device.value};
        }
      }
      sessions := sessions - ids;
      users := users - {userId};
      CleanDevices(keys, ids, now);
      assert ids - {} == ids;
    }

    method CleanDevices(keys: set<string>, ids: set<string>, now: int)
      modifies `devices
      ensures devices == SremFrom(old(devices), now, keys, ids)
    {
      ghost var d0, cleaned: set<string> := devices, {};
      var todo := keys;
      SremFromNone(d0, now, ids);
      while todo != {}
        invariant todo + cleaned == keys && todo !! cleaned
        invariant devices == SremFrom(d0, now, cleaned, ids)
      {
        var key :| key in todo;
        todo := todo - {key};
        RemoveMembers(key, ids, now);
        SremFromOneMore(d0, now, cleaned, ids, key);
        cleaned := cleaned + {key};
      }
      assert cleaned == keys;
    }

    method RemoveMembers(key: string, ids: set<string>, now: int)
      modifies `devices
      ensures devices == SremAll(old(devices), now, key, ids)
    {
      ghost var d0, removed: set<string> := devices, {};
      var todo := ids;
      while todo != {}
        invariant todo + removed == ids && todo !! removed
        invariant devices == SremAll(d0, now, key, removed)
      {
        var id :| id in todo;
        todo := todo - {id};
        devices := Srem(devices, now, key, id);
        SremOneMore(d0, now, key, removed, id);
        removed := removed + {id};
      }
      assert removed == ids;
    }

    /** Also drops from both indexes the ids whose session has expired. */
    method DeleteByUserIdAndDevice(userId: string, device: string, now: int)
      modifies this
      ensures State() == DeleteUserOnDevice(old(State()), now, userId, device)
    {
      ghost var s0 := State();
      var ids := Smembers(users, now, userId);
      if ids == {} {
        return;
      }
      var deleted: set<string>, dropped: set<string>, todo := {}, {}, ids;
      while todo != {}
        invariant todo <= ids && State() == s0
        invariant deleted == OnIt(s0, now, ids - todo, device)
        invariant dropped == OnIt(s0, now, ids - todo, device) + Gone(s0, now, ids - todo)
      {
        var id :| id in todo;
        todo := todo - {id};
        assert ids - todo == (ids - (todo + {id})) + {id};
        var value := Redis.Get(sessions, now, id);
        if value.Some? {
          if value.value.device == Some(device) {
            deleted := deleted + {id};
            dropped := dropped + {id};
          }
        } else {
          dropped := dropped + {id};
        }
      }
      assert ids - {} == ids;
      sessions := sessions - deleted;
      users := SremAll(users, now, userId, dropped);
      devices := SremAll(devices, now, device, dropped);
    }

    method ListByUserId(userId: string, now: int) returns (records: seq<SessionData>)
      ensures RecordsOfAll(LiveTable(State(), now), There(State(), now, Smembers(users, now, userId)), records)
    {
      records := [];
      var members := Smembers(users, now, userId);
      var todo := members;
      ghost var ids: seq<string> := [];
      ghost var t := LiveTable(State(), now);
      while todo != {}
        invariant todo <= members && Lists(t, There(State(), now, members - todo), ids)
        invariant records == RecordsOf(t, ids)
      {
        var id :| id in todo;
        assert id !in ids;
        todo := todo - {id};
        var value := Redis.Get(sessions, now, id);
        if value.Some? {
          records, ids := records + [value.value], ids + [id];
        }
      }
      assert members - todo == members;
    }

    /** The device's set as it stands: whoever is asked for may have gone. */
    method ListByDevice(device: string, now: int) returns (ids: set<string>)
      ensures forall id :: id in ids <==> Live(devices, now, device) && id in devices[device].value
    {
      ids := Smembers(devices, now, device);
    }

    /** Oldest first, of the listed sessions that are there and on the device. */
    method ListByUserIdAndDevice(userId: string, device: string, now: int) returns (ids: seq<string>)
      ensures OldestFirst(LiveTable(State(), now), OnIt(State(), now, Smembers(users, now, userId), device), ids)
    {
      ids := [];
      var members := Smembers(users, now, userId);
      var todo := members;
      while todo != {}
        invariant todo <= members && NoDup(ids)
        invariant forall id :: id in ids <==> id in OnIt(State(), now, members - todo, device)
      {
        var id :| id in todo;
        assert id !in ids;
        todo := todo - {id};
        var value := Redis.Get(sessions, now, id);
        if value.Some? && value.value.device == Some(device) {
          ids := ids + [id];
        }
      }
      assert members - {} == members;
      SortedListing(LiveTable(State(), now), ids, OnIt(State(), now, members, device));
      ids := ByCreateTime(LiveTable(State(), now), ids);
    }

    method RenewSession(sessionId: string, ttl: Option<int>, now: int)
      modifies this
      ensures State() == Renew(old(State()), now, sessionId, SessionTable.Seconds(ttl))
    {
      var ttlSeconds := SessionTable.Seconds(ttl);
      if ttlSeconds.Some? {
        sessions := Redis.Expire(sessions, now, sessionId, ttlSeconds.value);
      }
    }
  }
}
