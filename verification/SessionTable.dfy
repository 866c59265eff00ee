/**
 What a session store is for, without indexes or timers: a table of records with deadlines. Schedules
 are what clients do to a store over time, in whole seconds; a timer firing concerns the in-memory
 store only.
 */
module SessionTable {
  import opened Js
  import opened Sessions

  datatype Rec = Rec(data: SessionData, deadline: Option<int>)

  datatype State = State(now: int, recs: map<string, Rec>)

  datatype Act =
    | Set(id: string, data: SessionData, ttl: Option<int>)     // lifetime in ms
    | Delete(id: string)
    | DeleteUser(user: string)
    | DeleteUserOnDevice(user: string, device: string)
    | Renewal(id: string, ttl: Option<int>)                    // lifetime in ms, from now on
    | Fire(timer: nat)
    | Wait(seconds: nat)

  /** `Math.ceil(ttl / 1000)`, with an absent lifetime, or one that rounds to zero, meaning none. */
  function Seconds(ttl: Option<int>): Option<int> {
    if ttl.Some? && (ttl.value + 999) / 1000 != 0 then Some((ttl.value + 999) / 1000) else None
  }

  predicate There(r: Rec, now: int) {
    r.deadline.None? || now < r.deadline.value
  }

  /** The sessions that are there. */
  function Live(s: State): Table {
    map id | id in s.recs && There(s.recs[id], s.now) :: s.recs[id].data
  }

  function Apply(s: State, a: Act): State {
    match a
    case Set(id, data, ttl) =>
      s.(recs := s.recs[id := Rec(data, if Seconds(ttl).Some? then Some(s.now + Seconds(ttl).value) else None)])
    case Delete(id) => s.(recs := s.recs - {id})
    case DeleteUser(user) => s.(recs := s.recs - OfUser(Live(s), user))
    case DeleteUserOnDevice(user, device) => s.(recs := s.recs - OfUserOnDevice(Live(s), user, device))
    case Renewal(id, ttl) =>
      if id in s.recs && There(s.recs[id], s.now) && Seconds(ttl).Some? then
        s.(recs := s.recs[id := s.recs[id].(deadline := Some(s.now + Seconds(ttl).value))])
      else s
    case Fire(_) => s
    case Wait(d) => s.(now := s.now + d)
  }

  ghost function Run(acts: seq<Act>): State {
    if acts == [] then State(0, map[])
    else Apply(Run(acts[..|acts| - 1]), acts[|acts| - 1])
  }

  /** The user and device a session id stands for. */
  datatype Owner = Owner(user: string, device: Option<string>)

  /** Each session id is only ever used for one user on one device. */
  ghost predicate Owned(acts: seq<Act>, owner: string -> Owner) {
    forall i :: 0 <= i < |acts| && acts[i].Set? ==>
      acts[i].data.userId == owner(acts[i].id).user && acts[i].data.device == owner(acts[i].id).device
  }

  /** Lifetimes are absent or positive, and their whole-second values come from `ttls`. */
  ghost predicate TtlsIn(acts: seq<Act>, ttls: set<Option<int>>) {
    forall i :: 0 <= i < |acts| && acts[i].Set? ==> Seconds(acts[i].ttl) in ttls
  }

  ghost predicate RenewalsIn(acts: seq<Act>, renews: set<Option<int>>) {
    forall i :: 0 <= i < |acts| && acts[i].Renewal? ==> Seconds(acts[i].ttl) in renews
  }

  lemma RunSnoc(acts: seq<Act>, a: Act)
    ensures Run(acts + [a]) == Apply(Run(acts), a)
  {
    assert (acts + [a])[..|acts|] == acts;
  }
}
