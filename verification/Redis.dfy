/**
 The part of a Redis server the repository relies on: keys with an optional expiry, string values
 and sets, each command taking effect at one instant. A key with a deadline is there strictly
 before it. Keys of different prefixes never meet, so each prefix is a map of its own.
 */
module Redis {
  import opened Js

  datatype Cell<+V> = Cell(value: V, expireAt: Option<int>) {
    predicate Alive(now: int) {
      expireAt.None? || now < expireAt.value
    }
  }

  type Keys<V> = map<string, Cell<V>>

  predicate Live<V>(m: Keys<V>, now: int, k: string) {
    k in m && m[k].Alive(now)
  }

  function Get<V>(m: Keys<V>, now: int, k: string): Option<V> {
    if Live(m, now, k) then Some(m[k].value) else None
  }

  /** SET key value, with EX/PX when a lifetime is given. */
  function Put<V>(m: Keys<V>, now: int, k: string, v: V, ttl: Option<int>): Keys<V> {
    m[k := Cell(v, if ttl.Some? then Some(now + ttl.value) else None)]
  }

  function Expire<V>(m: Keys<V>, now: int, k: string, ttl: int): Keys<V> {
    if Live(m, now, k) then m[k := m[k].(expireAt := Some(now + ttl))] else m
  }

  function Smembers(m: Keys<set<string>>, now: int, k: string): set<string> {
    if Live(m, now, k) then m[k].value else {}
  }

  /** SADD keeps the deadline of a set that is there and starts a new set otherwise. */
  function Sadd(m: Keys<set<string>>, now: int, k: string, x: string): Keys<set<string>> {
    if Live(m, now, k) then m[k := m[k].(value := m[k].value + {x})]
    else m[k := Cell({x}, None)]
  }

  /** SREM of several members; a set left empty is no longer a key. */
  function SremAll(m: Keys<set<string>>, now: int, k: string, xs: set<string>): Keys<set<string>> {
    if !Live(m, now, k) || m[k].value !! xs then m
    else if m[k].value - xs == {} then m - {k}
    else m[k := m[k].(value := m[k].value - xs)]
  }

  function Srem(m: Keys<set<string>>, now: int, k: string, x: string): Keys<set<string>> {
    SremAll(m, now, k, {x})
  }

  lemma SremOneMore(m: Keys<set<string>>, now: int, k: string, xs: set<string>, x: string)
    ensures Srem(SremAll(m, now, k, xs), now, k, x) == SremAll(m, now, k, xs + {x})
  {
    if Live(m, now, k) {
      var v, m1 := m[k].value, SremAll(m, now, k, xs);
      assert v - xs - {x} == v - (xs + {x});
      if v !! xs {
        assert m1 == m && (v !! (xs + {x}) <==> v !! {x});
        assert v - {x} == v - (xs + {x});
      } else if v - xs == {} {
        assert v - (xs + {x}) == {} && !(v !! (xs + {x}));
      } else if x !in v - xs {
        assert v - (xs + {x}) == v - xs && !(v !! (xs + {x})) && (v - xs) !! {x};
      } else {
        assert !((v - xs) !! {x}) && !(v !! (xs + {x}));
      }
    }
  }

  /** SREM of the same members from several sets. */
  function SremFrom(m: Keys<set<string>>, now: int, ks: set<string>, xs: set<string>): Keys<set<string>> {
    map k | k in m && (k in ks && Live(m, now, k) && !(m[k].value !! xs) ==> m[k].value - xs != {})
      :: if k in ks && Live(m, now, k) && !(m[k].value !! xs) then m[k].(value := m[k].value - xs) else m[k]
  }

  lemma SremFromOneMore(m: Keys<set<string>>, now: int, ks: set<string>, xs: set<string>, k: string)
    requires k !in ks
    ensures SremAll(SremFrom(m, now, ks, xs), now, k, xs) == SremFrom(m, now, ks + {k}, xs)
  {
  }

  lemma SremFromNone(m: Keys<set<string>>, now: int, xs: set<string>)
    ensures SremFrom(m, now, {}, xs) == m
  {
  }
}
