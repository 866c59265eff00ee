/**
 Wildcard permissions: colon-separated segments, `*` for any one segment, and `*` alone for anything.
 Covering is a partial order, and it is exactly inclusion of the permissions that use no wildcard.
 */
module Permission {
  import opened Js

  // ---------- split(':') ----------

  function Split(s: string): (parts: seq<string>)
    ensures parts != []
  {
    if s == "" then [""]
    else
      var rest := Split(s[1..]);
      if s[0] == ':' then [""] + rest else [[s[0]] + rest[0]] + rest[1..]
  }

  function Join(parts: seq<string>): string {
    if parts == [] then ""
    else if |parts| == 1 then parts[0]
    else parts[0] + ":" + Join(parts[1..])
  }

  ghost predicate Segment(p: string) {
    ':' !in p
  }

  lemma {:induction false} JoinSplit(s: string)
    ensures Join(Split(s)) == s
  {
    if s != "" {
      JoinSplit(s[1..]);
      var rest := Split(s[1..]);
      if s[0] == ':' {
        assert ([""] + rest)[1..] == rest;
        assert s == ":" + s[1..];
      } else {
        assert ([[s[0]] + rest[0]] + rest[1..])[1..] == rest[1..];
        assert s == [s[0]] + s[1..];
      }
    }
  }

  lemma SplitInjective(s: string, t: string)
    requires Split(s) == Split(t)
    ensures s == t
  {
    JoinSplit(s);
    JoinSplit(t);
  }

  lemma {:induction false} SplitSegment(p: string)
    requires Segment(p)
    ensures Split(p) == [p]
  {
    if p != "" {
      assert forall i :: 0 <= i < |p[1..]| ==> p[1..][i] == p[i + 1];
      SplitSegment(p[1..]);
      assert p == [p[0]] + p[1..];
    }
  }

  lemma {:induction false} SplitFirst(p: string, t: string)
    requires Segment(p)
    ensures Split(p + ":" + t) == [p] + Split(t)
  {
    var s := p + ":" + t;
    if p == "" {
      assert s == [':'] + t && s[1..] == t;
    } else {
      assert forall i :: 0 <= i < |p[1..]| ==> p[1..][i] == p[i + 1];
      SplitFirst(p[1..], t);
      assert s[1..] == p[1..] + ":" + t;
      assert p == [p[0]] + p[1..];
    }
  }

  lemma {:induction false} SplitJoin(parts: seq<string>)
    requires parts != [] && (forall p :: p in parts ==> Segment(p))
    ensures Split(Join(parts)) == parts
  {
    if |parts| == 1 {
      SplitSegment(parts[0]);
      assert parts == [parts[0]];
    } else {
      SplitJoin(parts[1..]);
      SplitFirst(parts[0], Join(parts[1..]));
      assert parts == [parts[0]] + parts[1..];
    }
  }

  lemma {:induction false} SplitSegments(s: string)
    ensures forall p :: p in Split(s) ==> Segment(p)
  {
    if s != "" {
      SplitSegments(s[1..]);
      var rest := Split(s[1..]);
      assert rest == [rest[0]] + rest[1..];
      assert Segment(rest[0]);
    }
  }

  // ---------- covering ----------

  predicate CoversParts(user: seq<string>, required: seq<string>) {
    |user| == |required| && (forall i :: 0 <= i < |user| ==> user[i] == "*" || user[i] == required[i])
  }

  function MatchPermission(user: string, required: string): bool {
    user == "*" || user == required || CoversParts(Split(user), Split(required))
  }

  lemma Top(required: string)
    ensures MatchPermission("*", required)
    ensures MatchPermission(required, "*") <==> required == "*"
  {
    assert Split("*") == ["*"] by { SplitSegment("*"); }
    if CoversParts(Split(required), ["*"]) {
      assert Split(required) == ["*"];
      SplitInjective(required, "*");
    }
  }

  lemma Transitive(a: string, b: string, c: string)
    requires MatchPermission(a, b) && MatchPermission(b, c)
    ensures MatchPermission(a, c)
  {
    Top(a);
  }

  lemma Antisymmetric(a: string, b: string)
    requires MatchPermission(a, b) && MatchPermission(b, a)
    ensures a == b
  {
    if a == "*" {
      Top(b);
    } else if b == "*" {
      Top(a);
    } else if a != b {
      assert Split(a) == Split(b);
      SplitInjective(a, b);
    }
  }

  // ---------- covering is inclusion ----------

  /** A permission without wildcards. */
  ghost predicate Concrete(s: string) {
    "*" !in Split(s)
  }

  /** A segment longer than every one of `parts`. */
  function Longer(parts: seq<string>): (r: string)
    ensures forall p :: p in parts ==> |p| < |r|
    ensures Segment(r) && |r| > 1
  {
    if parts == [] then "xx"
    else
      var rest := Longer(parts[1..]);
      assert parts == [parts[0]] + parts[1..];
      rest + seq(|parts[0]|, _ => 'x')
  }

  /** Wildcards replaced by one segment. */
  function Filled(parts: seq<string>, x: string): seq<string> {
    seq(|parts|, i requires 0 <= i < |parts| => if parts[i] == "*" then x else parts[i])
  }

  /** The permission a wildcard pattern covers that the other pattern covers only if it covers the pattern. */
  lemma Witness(a: string, b: string) returns (r: string)
    ensures Concrete(r) && MatchPermission(b, r)
    ensures MatchPermission(a, r) ==> MatchPermission(a, b)
  {
    var x := Longer(Split(a));
    var parts := Filled(Split(b), x);
    SplitSegments(b);
    r := Join(parts);
    SplitJoin(parts);
    WitnessParts(Split(a), Split(b), x);
    if a == r {
      assert Split(a) == parts;
    }
  }

  lemma WitnessParts(a: seq<string>, b: seq<string>, x: string)
    requires (forall p :: p in a ==> |p| < |x|) && |x| > 1
    ensures "*" !in Filled(b, x) && CoversParts(b, Filled(b, x))
    ensures CoversParts(a, Filled(b, x)) ==> CoversParts(a, b)
  {
    var r := Filled(b, x);
    if CoversParts(a, r) {
      forall i | 0 <= i < |a| ensures a[i] == "*" || a[i] == b[i] {
        assert a[i] in a;
      }
    }
  }

  /** One pattern covers another exactly when it covers every wildcard-free permission the other covers. */
  lemma CoversIffIncludes(a: string, b: string)
    ensures MatchPermission(a, b)
            <==> forall r :: Concrete(r) && MatchPermission(b, r) ==> MatchPermission(a, r)
  {
    if MatchPermission(a, b) {
      forall r | Concrete(r) && MatchPermission(b, r) ensures MatchPermission(a, r) {
        Transitive(a, b, r);
      }
    } else {
      var r := Witness(a, b);
    }
  }

  // ---------- permission lists ----------

  /** Absent lists count as empty; requiring nothing is always met. */
  predicate HasPermission(granted: Option<seq<string>>, required: Option<seq<string>>) {
    required.None? ||
    forall r :: r in required.value ==> granted.Some? && exists g :: g in granted.value && MatchPermission(g, r)
  }

  /** Two lists of requirements are met together exactly when each is. */
  lemma RequiresBoth(granted: Option<seq<string>>, a: seq<string>, b: seq<string>)
    ensures HasPermission(granted, Some(a + b)) <==> HasPermission(granted, Some(a)) && HasPermission(granted, Some(b))
  {
    assert forall r :: r in a + b <==> r in a || r in b;
  }

  /** As many segments, each the wildcard or the same. */
  ghost predicate SegmentsMatch(g: seq<string>, r: seq<string>) {
    |g| == |r| && forall i :: 0 <= i < |g| ==> g[i] in {"*", r[i]}
  }

  /** One permission is there exactly when some grant is it, is `*`, or matches it segment by segment. */
  lemma HasOneIff(granted: Option<seq<string>>, r: string)
    ensures HasPermission(granted, Some([r]))
            <==> granted.Some? && (r in granted.value || "*" in granted.value
                                   || exists g :: g in granted.value && SegmentsMatch(Split(g), Split(r)))
  {
    assert r in [r];
    assert MatchPermission(r, r) && MatchPermission("*", r);
    assert forall g :: MatchPermission(g, r) <==> g == r || g == "*" || SegmentsMatch(Split(g), Split(r));
  }

  lemma RequiresNothing(granted: Option<seq<string>>)
    ensures HasPermission(granted, None) && HasPermission(granted, Some([]))
  {
  }

  /** Everything granted before is covered by something granted now. */
  ghost predicate Covered(granted: seq<string>, now: seq<string>) {
    forall g :: g in granted ==> exists h :: h in now && MatchPermission(h, g)
  }

  /** A list of grants can stand in for another, whatever is required, exactly when it covers each of its grants. */
  lemma SubstituteIff(granted: seq<string>, now: seq<string>)
    ensures (forall required :: HasPermission(Some(granted), required) ==> HasPermission(Some(now), required))
            <==> Covered(granted, now)
  {
    if Covered(granted, now) {
      forall required | HasPermission(Some(granted), required) ensures HasPermission(Some(now), required) {
        CoveredHas(granted, now, required);
      }
    } else {
      var g :| g in granted && !exists h :: h in now && MatchPermission(h, g);
      assert MatchPermission(g, g);
      assert g in [g];
      assert HasPermission(Some(granted), Some([g])) && !HasPermission(Some(now), Some([g]));
    }
  }

  lemma CoveredHas(granted: seq<string>, now: seq<string>, required: Option<seq<string>>)
    requires Covered(granted, now) && HasPermission(Some(granted), required)
    ensures HasPermission(Some(now), required)
  {
    if required.Some? {
      forall r | r in required.value ensures exists h :: h in now && MatchPermission(h, r) {
        var g :| g in granted && MatchPermission(g, r);
        var h :| h in now && MatchPermission(h, g);
        Transitive(h, g, r);
      }
    }
  }
}
