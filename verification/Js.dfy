/**
 The JavaScript values and containers the repository is written with: optional strings under
 truthiness, the insertion-ordered `Map`, `setTimeout`'s delay rule, and names that have not
 been used before (what `randomUUID` is relied on for).
 */
module Js {

  datatype Option<+T> = None | Some(value: T)

  /** `if (x)` on an optional string: absent and "" are both false. */
  predicate Truthy(o: Option<string>) {
    o.Some? && o.value != ""
  }

  /** Largest delay `setTimeout` honours. */
  const MAX_TIMEOUT_MS: int := 2147483647

  /** Number.MAX_SAFE_INTEGER, used as "never". */
  const MAX_SAFE_INTEGER: int := 9007199254740991

  /** The largest instant a JavaScript clock can show. */
  const MAX_DATE: int := 8640000000000000

  /** What `setTimeout(f, d)` waits: a delay outside 1..MAX_TIMEOUT_MS is replaced by 1. */
  function TimerDelay(d: int): int {
    if 1 <= d <= MAX_TIMEOUT_MS then d else 1
  }

  function Max(a: int, b: int): int {
    if a >= b then a else b
  }

  // ---------- sequences without repetition ----------

  ghost predicate NoDup<T>(s: seq<T>) {
    forall i, j :: 0 <= i < j < |s| ==> s[i] != s[j]
  }

  /** The elements of s that are in `keep`, in order. */
  function Keep<T(==,!new)>(s: seq<T>, keep: set<T>): (r: seq<T>)
    ensures forall x :: x in r <==> x in s && x in keep
  {
    if s == [] then []
    else
      var rest := Keep(s[1..], keep);
      assert s == [s[0]] + s[1..];
      if s[0] in keep then [s[0]] + rest else rest
  }

  lemma {:induction false} KeepNoDup<T(!new)>(s: seq<T>, keep: set<T>)
    requires NoDup(s)
    ensures NoDup(Keep(s, keep))
  {
    if s != [] {
      assert s == [s[0]] + s[1..];
      NoDupCons(s[0], s[1..]);
      KeepNoDup(s[1..], keep);
      NoDupCons(s[0], Keep(s[1..], keep));
    }
  }

  lemma {:induction false} KeepAll<T(!new)>(s: seq<T>, keep: set<T>)
    requires forall x :: x in s ==> x in keep
    ensures Keep(s, keep) == s
  {
    if s != [] {
      KeepAll(s[1..], keep);
    }
  }

  lemma NoDupCons<T>(x: T, t: seq<T>)
    ensures NoDup([x] + t) <==> x !in t && NoDup(t)
  {
    var s := [x] + t;
    assert forall j :: 0 <= j < |t| ==> s[j + 1] == t[j];
    if NoDup(s) {
      forall j | 0 <= j < |t| ensures t[j] != x {
        assert s[0] != s[j + 1];
      }
    }
  }

  /** The elements of s that are not in `gone`, in order. */
  function WithoutAll<T(==,!new)>(s: seq<T>, gone: set<T>): (r: seq<T>)
    ensures forall x :: x in r <==> x in s && x !in gone
  {
    Keep(s, (set x | x in s) - gone)
  }

  /** Every occurrence of k dropped, order kept. */
  function Without<T(==,!new)>(s: seq<T>, k: T): (r: seq<T>)
    ensures forall x :: x in r <==> x in s && x != k
  {
    WithoutAll(s, {k})
  }

  lemma {:induction false} KeepAgree<T(!new)>(s: seq<T>, a: set<T>, b: set<T>)
    requires forall x :: x in s ==> (x in a <==> x in b)
    ensures Keep(s, a) == Keep(s, b)
  {
    if s != [] {
      KeepAgree(s[1..], a, b);
    }
  }

  lemma {:induction false} KeepSnoc<T(!new)>(s: seq<T>, x: T, keep: set<T>)
    ensures Keep(s + [x], keep) == Keep(s, keep) + (if x in keep then [x] else [])
  {
    if s == [] {
      assert s + [x] == [x];
      assert Keep([x], keep) == (if x in keep then [x] else []) + Keep([x][1..], keep);
    } else {
      assert (s + [x])[1..] == s[1..] + [x];
      KeepSnoc(s[1..], x, keep);
    }
  }

  lemma {:induction false} KeepKeep<T(!new)>(s: seq<T>, a: set<T>, b: set<T>)
    ensures Keep(Keep(s, a), b) == Keep(s, a * b)
  {
    if s != [] {
      KeepKeep(s[1..], a, b);
      var rest := Keep(s[1..], a);
      if s[0] in a {
        assert ([s[0]] + rest)[1..] == rest;
      }
    }
  }

  lemma WithoutOneMore<T(!new)>(s: seq<T>, gone: set<T>, k: T)
    ensures Without(WithoutAll(s, gone), k) == WithoutAll(s, gone + {k})
  {
    var all := set x | x in s;
    var r := WithoutAll(s, gone);
    var b := (set x | x in r) - {k};
    KeepKeep(s, all - gone, b);
    KeepAgree(s, (all - gone) * b, all - (gone + {k}));
  }

  lemma WithoutOnly<T(!new)>(x: T)
    ensures Without([x], x) == []
  {
    var r := Without([x], x);
    assert [x][1..] == [];
    assert r == Keep([x][1..], (set y | y in [x]) - {x});
  }

  lemma WithoutNone<T(!new)>(s: seq<T>)
    ensures WithoutAll(s, {}) == s
  {
    KeepAll(s, (set x | x in s) - {});
  }

  /** x stands before y. */
  ghost predicate Before<T>(s: seq<T>, x: T, y: T) {
    exists i, j :: 0 <= i < j < |s| && s[i] == x && s[j] == y
  }

  lemma {:induction false} KeepBefore<T(!new)>(s: seq<T>, keep: set<T>, x: T, y: T)
    requires Before(Keep(s, keep), x, y)
    ensures Before(s, x, y)
  {
    var r := Keep(s, keep);
    var i, j :| 0 <= i < j < |r| && r[i] == x && r[j] == y;
    var rest := Keep(s[1..], keep);
    if s[0] !in keep || i > 0 {
      var d := if s[0] !in keep then 0 else 1;
      assert rest[i - d] == x && rest[j - d] == y;
      KeepBefore(s[1..], keep, x, y);
      var i', j' :| 0 <= i' < j' < |s[1..]| && s[1..][i'] == x && s[1..][j'] == y;
      assert s[i' + 1] == x && s[j' + 1] == y;
    } else {
      assert rest[j - 1] == y && y in rest;
      var j' :| 0 <= j' < |s[1..]| && s[1..][j'] == y;
      assert s[0] == x && s[j' + 1] == y;
    }
  }

  lemma {:induction false} NoDupSize<T(!new)>(s: seq<T>, keys: set<T>)
    requires NoDup(s)
    requires forall x :: x in s <==> x in keys
    ensures |s| == |keys|
  {
    if s != [] {
      var t := s[..|s| - 1];
      assert s == t + [s[|s| - 1]];
      NoDupSize(t, keys - {s[|s| - 1]});
    }
  }

  lemma SubsetSize<T>(a: set<T>, b: set<T>)
    requires a <= b
    ensures |a| <= |b|
  {
    assert b == a + (b - a);
  }

  // ---------- Map ----------

  /** A `Map`: `order` lists the keys by first insertion, as iteration sees them. */
  datatype JsMap<K(==,!new), V> = JsMap(m: map<K, V>, order: seq<K>) {
    ghost predicate Valid() {
      NoDup(order) && (forall k :: k in order <==> k in m)
    }

    /** `set` keeps the place of a key already present. */
    function Set(k: K, v: V): JsMap<K, V> {
      JsMap(m[k := v], if k in m then order else order + [k])
    }

    function Delete(k: K): JsMap<K, V> {
      JsMap(m - {k}, Without(order, k))
    }

    /** Every key of `gone` deleted. */
    function DeleteKeys(gone: set<K>): JsMap<K, V> {
      JsMap(m - gone, WithoutAll(order, gone))
    }

    lemma SetValid(k: K, v: V)
      requires Valid()
      ensures Set(k, v).Valid()
    {
    }

    lemma DeleteKeysValid(gone: set<K>)
      requires Valid()
      ensures DeleteKeys(gone).Valid()
    {
      KeepNoDup(order, (set x | x in order) - gone);
    }

    lemma DeleteValid(k: K)
      requires Valid()
      ensures Delete(k).Valid()
    {
      DeleteKeysValid({k});
    }

    lemma DeleteOneMoreKey(gone: set<K>, k: K)
      ensures DeleteKeys(gone).Delete(k) == DeleteKeys(gone + {k})
    {
      WithoutOneMore(order, gone, k);
    }
  }

  // ---------- names not used before ----------

  /** A name longer than every name of `used`. */
  lemma {:induction false} LongerName(used: set<string>) returns (name: string)
    ensures forall u :: u in used ==> |u| < |name|
  {
    if used == {} {
      name := "n";
    } else {
      var u :| u in used;
      var rest := LongerName(used - {u});
      name := rest + u + "n";
      assert used == (used - {u}) + {u};
    }
  }

  /** There is always a non-empty name outside a finite set. */
  lemma FreshName(used: set<string>) returns (name: string)
    ensures name !in used && name != ""
  {
    name := LongerName(used + {""});
  }

  /** Names told apart by their length. */
  function Name(i: nat): string {
    seq(i + 1, _ => 'x')
  }

  lemma NameInjective(i: nat, j: nat)
    ensures Name(i) == Name(j) <==> i == j
  {
    assert |Name(i)| == i + 1 && |Name(j)| == j + 1;
  }
}
