/**
 The gate for signed requests: headers present, timestamp readable and close to the clock, nonce not on
 record, signature right, checked in that order. The signature check itself is a parameter.
 */
module SignatureGuard {
  import opened Js
  import opened NonceStore

  datatype Payload = Payload(verb: string, path: string, timestamp: int, nonce: string, body: Option<string>)

  datatype Visit = Visit(at: int, signature: Option<string>, timestamp: Option<string>, nonce: Option<string>,
                         verb: string, path: string, body: Option<string>)

  datatype Verdict = Accepted | MissingHeader | BadTimestamp | Outdated | DuplicateNonce | BadSignature

  const DEFAULT_TOLERANCE: int := 300000

  /** `config.timestampTolerance || 5 minutes`. */
  function Tolerance(configured: Option<int>): int {
    if configured.Some? && configured.value != 0 then configured.value else DEFAULT_TOLERANCE
  }

  // ---------- parseInt(s, 10) ----------

  predicate Digit(c: char) {
    '0' <= c <= '9'
  }

  /** WhiteSpace and LineTerminator of ECMAScript. */
  predicate Blank(c: char) {
    var code := c as int;
    || 9 <= code <= 13 || code == 32 || code == 0xA0 || code == 0x1680 || 0x2000 <= code <= 0x200A
    || code in {0x2028, 0x2029, 0x202F, 0x205F, 0x3000, 0xFEFF}
  }

  /** The value of the leading digits, on top of `acc`. */
  function Digits(s: string, acc: int): int {
    if s != [] && Digit(s[0]) then Digits(s[1..], acc * 10 + (s[0] as int - '0' as int)) else acc
  }

  function Unsigned(s: string): Option<int> {
    if s != [] && Digit(s[0]) then Some(Digits(s, 0)) else None
  }

  /** Leading blanks and a sign, then as many digits as follow; the rest is ignored. */
  function ParseInt(s: string): Option<int> {
    if s != [] && Blank(s[0]) then ParseInt(s[1..])
    else if s != [] && s[0] == '-' then
      match Unsigned(s[1..])
      case None => None
      case Some(n) => Some(-n)
    else if s != [] && s[0] == '+' then Unsigned(s[1..])
    else Unsigned(s)
  }

  /** n written in decimal. */
  function Decimal(n: nat): string {
    if n < 10 then [('0' as int + n) as char] else Decimal(n / 10) + [('0' as int + n % 10) as char]
  }

  lemma {:induction false} DigitsThen(a: string, rest: string, acc: int)
    requires forall i :: 0 <= i < |a| ==> Digit(a[i])
    ensures Digits(a + rest, acc) == Digits(rest, Digits(a, acc))
  {
    if a == [] {
      assert a + rest == rest;
    } else {
      assert (a + rest)[1..] == a[1..] + rest;
      DigitsThen(a[1..], rest, acc * 10 + (a[0] as int - '0' as int));
    }
  }

  lemma {:induction false} DecimalDigits(n: nat)
    ensures Decimal(n) != [] && (forall i :: 0 <= i < |Decimal(n)| ==> Digit(Decimal(n)[i])) && Digits(Decimal(n), 0) == n
  {
    var last := [('0' as int + n % 10) as char];
    assert last[1..] == [] && forall acc :: Digits(last, acc) == acc * 10 + n % 10;
    if n >= 10 {
      DecimalDigits(n / 10);
      DigitsThen(Decimal(n / 10), last, 0);
    }
  }

  lemma {:induction false} SkipBlanks(blanks: string, s: string)
    requires forall i :: 0 <= i < |blanks| ==> Blank(blanks[i])
    ensures ParseInt(blanks + s) == ParseInt(s)
  {
    if blanks == [] {
      assert blanks + s == s;
    } else {
      assert (blanks + s)[1..] == blanks[1..] + s;
      SkipBlanks(blanks[1..], s);
    }
  }

  lemma DigitsAreNotBlank(c: char)
    requires Digit(c)
    ensures !Blank(c) && c != '-' && c != '+'
  {
  }

  lemma UnsignedDecimal(n: int, rest: string)
    requires n >= 0 && (rest == [] || !Digit(rest[0]))
    ensures var s := Decimal(n) + rest; s != [] && Digit(s[0]) && Unsigned(s) == Some(n)
  {
    DecimalDigits(n);
    DigitsThen(Decimal(n), rest, 0);
    assert Digits(rest, n) == n;
    assert (Decimal(n) + rest)[0] == Decimal(n)[0];
  }

  lemma ParsesSigned(sign: string, s: string, n: int)
    requires sign in {"", "+", "-"} && s != [] && Digit(s[0]) && Unsigned(s) == Some(n)
    ensures ParseInt(sign + s) == Some(if sign == "-" then -n else n)
  {
    hide Unsigned, Digit;
    DigitsAreNotBlank(s[0]);
    if sign == "" {
      assert sign + s == s;
    } else {
      assert (sign + s)[1..] == s;
    }
  }

  /** A decimal number, after blanks and perhaps a sign, is read to its last digit. */
  lemma ParsesDecimal(blanks: string, sign: string, n: int, rest: string)
    requires forall i :: 0 <= i < |blanks| ==> Blank(blanks[i])
    requires n >= 0 && sign in {"", "+", "-"} && (rest == [] || !Digit(rest[0]))
    ensures ParseInt(blanks + (sign + (Decimal(n) + rest))) == Some(if sign == "-" then -n else n)
  {
    hide *;
    SkipBlanks(blanks, sign + (Decimal(n) + rest));
    UnsignedDecimal(n, rest);
    ParsesSigned(sign, Decimal(n) + rest, n);
  }

  /** Without a digit after blanks and perhaps a sign, there is no number. */
  lemma ParsesNothing(blanks: string, sign: string, rest: string)
    requires forall i :: 0 <= i < |blanks| ==> Blank(blanks[i])
    requires sign in {"", "+", "-"} && (rest == [] || (!Digit(rest[0]) && !Blank(rest[0]) && rest[0] !in {'+', '-'}))
    ensures ParseInt(blanks + (sign + rest)) == None
  {
    SkipBlanks(blanks, sign + rest);
    if sign == "" {
      assert sign + rest == rest;
    } else {
      assert (sign + rest)[1..] == rest;
    }
  }

  // ---------- the gate ----------

  predicate InTolerance(now: int, timestamp: int, tolerance: int) {
    (if now >= timestamp then now - timestamp else timestamp - now) <= tolerance
  }

  /** The timestamp of a visit whose headers are all there and that is recent enough. */
  function Timely(tolerance: int, v: Visit): (t: Option<int>)
    ensures t.Some? ==> Truthy(v.signature) && Truthy(v.nonce) && InTolerance(v.at, t.value, tolerance)
  {
    if !Truthy(v.signature) || !Truthy(v.timestamp) || !Truthy(v.nonce) then None
    else
      match ParseInt(v.timestamp.value)
      case None => None
      case Some(t) => if InTolerance(v.at, t, tolerance) then Some(t) else None
  }

  function Signed(v: Visit, timestamp: int): Payload
    requires v.nonce.Some?
  {
    Payload(v.verb, v.path, timestamp, v.nonce.value, v.body)
  }

  class Guard {
    const tolerance: int
    const store: MemoryNonceStore?
    const verify: (Payload, string) -> bool

    constructor (configured: Option<int>, store: MemoryNonceStore?, verify: (Payload, string) -> bool)
      ensures this.tolerance == (if configured.None? || configured.value == 0 then 300000 else configured.value)
      ensures this.store == store && this.verify == verify
    {
      this.tolerance := Tolerance(configured);
      this.store := store;
      this.verify := verify;
    }

    method CanActivate(v: Visit) returns (verdict: Verdict)
      requires store != null ==> store.records.Valid()
      modifies store
      ensures store == null ==> verdict == JudgeAlone(tolerance, verify, v)
      ensures store != null ==>
        && verdict == Judge(tolerance, verify, old(store.records), v)
        && store.records == Noted(store.maxSize, tolerance, old(store.records), v) && store.records.Valid()
    {
      if !Truthy(v.signature) || !Truthy(v.timestamp) || !Truthy(v.nonce) {
        return MissingHeader;
      }
      var timestamp := ParseInt(v.timestamp.value);
      if timestamp.None? {
        return BadTimestamp;
      }
      if !InTolerance(v.at, timestamp.value, tolerance) {
        return Outdated;
      }
      if store != null {
        var added := store.AddIfAbsent(v.nonce.value, tolerance, v.at);
        if !added {
          return DuplicateNonce;
        }
      }
      if !verify(Signed(v, timestamp.value), v.signature.value) {
        return BadSignature;
      }
      return Accepted;
    }
  }

  /** The verdict without a nonce store. */
  function JudgeAlone(tolerance: int, verify: (Payload, string) -> bool, v: Visit): Verdict {
    if !Truthy(v.signature) || !Truthy(v.timestamp) || !Truthy(v.nonce) then MissingHeader
    else if ParseInt(v.timestamp.value).None? then BadTimestamp
    else if Timely(tolerance, v).None? then Outdated
    else if !verify(Signed(v, Timely(tolerance, v).value), v.signature.value) then BadSignature
    else Accepted
  }

  /** A nonce on record decides before the signature is looked at. */
  function Judge(tolerance: int, verify: (Payload, string) -> bool, r: Records, v: Visit): Verdict {
    if Timely(tolerance, v).Some? && !IsNew(r, v.at, v.nonce.value) then DuplicateNonce
    else JudgeAlone(tolerance, verify, v)
  }

  /** Every timely visit leaves its nonce on record, whether or not its signature is right. */
  function Noted(maxSize: int, tolerance: int, r: Records, v: Visit): Records {
    if Timely(tolerance, v).Some? then SetIfAbsent(r, maxSize, v.at, v.nonce.value, tolerance) else r
  }

  // ---------- what each verdict means ----------

  ghost predicate Sent(header: Option<string>) {
    header.Some? && header.value != ""
  }

  /** Within the tolerance of the clock, on either side. */
  ghost predicate Close(at: int, t: int, tolerance: int) {
    at - tolerance <= t <= at + tolerance
  }

  /** The signature is right for the request's method, path, timestamp, nonce and body. */
  ghost predicate SignedRight(verify: (Payload, string) -> bool, v: Visit, t: int)
    requires v.nonce.Some? && v.signature.Some?
  {
    verify(Payload(v.verb, v.path, t, v.nonce.value, v.body), v.signature.value)
  }

  /** Headers sent, a timestamp close to the clock, and the right signature. */
  ghost predicate Sound(tolerance: int, verify: (Payload, string) -> bool, v: Visit) {
    && Sent(v.signature) && Sent(v.timestamp) && Sent(v.nonce)
    && var t := ParseInt(v.timestamp.value);
       t.Some? && Close(v.at, t.value, tolerance) && SignedRight(verify, v, t.value)
  }

  /**
   The verdict on a request, in the order of the checks. It is accepted exactly when all three headers are sent,
   the timestamp is a number within the tolerance of the clock, the nonce is not on record unexpired, and the
   signature is right for method, path, timestamp, nonce and body. Without a store no nonce is on record.
   */
  lemma VerdictIff(tolerance: int, verify: (Payload, string) -> bool, r: Records, v: Visit)
    ensures
      var verdict := Judge(tolerance, verify, r, v);
      (verdict == MissingHeader <==> !(Sent(v.signature) && Sent(v.timestamp) && Sent(v.nonce)))
      && (verdict != MissingHeader ==>
        var t := ParseInt(v.timestamp.value);
        (verdict == BadTimestamp <==> t.None?)
        && (t.Some? ==>
          var close, known := Close(v.at, t.value, tolerance), v.nonce.value in r.m && v.at < r.m[v.nonce.value];
          && (verdict == Outdated <==> !close)
          && (verdict == DuplicateNonce <==> close && known)
          && (verdict == BadSignature <==> close && !known && !SignedRight(verify, v, t.value))
          && (verdict == Accepted <==> close && !known && SignedRight(verify, v, t.value))))
    ensures JudgeAlone(tolerance, verify, v) == Judge(tolerance, verify, EMPTY, v)
    ensures JudgeAlone(tolerance, verify, v) == Accepted <==> Sound(tolerance, verify, v)
  {
    hide ParseInt;
  }

  // ---------- replay ----------

  ghost function VisitAll(maxSize: int, tolerance: int, r: Records, vs: seq<Visit>): Records
    decreases |vs|
  {
    if vs == [] then r else VisitAll(maxSize, tolerance, Noted(maxSize, tolerance, r, vs[0]), vs[1..])
  }

  /** What the visits ask of the nonce store. */
  ghost function Asked(tolerance: int, vs: seq<Visit>): seq<Request> {
    if vs == [] then []
    else (if Timely(tolerance, vs[0]).Some? then [Request(vs[0].at, vs[0].nonce.value)] else []) + Asked(tolerance, vs[1..])
  }

  ghost predicate InOrder(since: int, vs: seq<Visit>) {
    && (forall i :: 0 <= i < |vs| ==> since <= vs[i].at)
    && (forall i, j :: 0 <= i < j < |vs| ==> vs[i].at <= vs[j].at)
  }

  lemma {:induction false} AskedRun(maxSize: int, tolerance: int, r: Records, vs: seq<Visit>)
    ensures VisitAll(maxSize, tolerance, r, vs) == Run(maxSize, tolerance, r, Asked(tolerance, vs))
    decreases |vs|
  {
    hide SetIfAbsent, Timely;
    if vs != [] {
      AskedRun(maxSize, tolerance, Noted(maxSize, tolerance, r, vs[0]), vs[1..]);
      var rest := Asked(tolerance, vs[1..]);
      if Timely(tolerance, vs[0]).Some? {
        assert ([Request(vs[0].at, vs[0].nonce.value)] + rest)[1..] == rest;
      } else {
        assert Asked(tolerance, vs) == rest;
      }
    }
  }

  /** Every request put to the store was put by a visit. */
  lemma {:induction false} AskedBy(tolerance: int, vs: seq<Visit>, q: Request)
    requires q in Asked(tolerance, vs)
    ensures exists v :: v in vs && Truthy(v.nonce) && q == Request(v.at, v.nonce.value)
  {
    if Timely(tolerance, vs[0]).Some? && q == Request(vs[0].at, vs[0].nonce.value) {
      assert vs[0] in vs;
    } else {
      AskedBy(tolerance, vs[1..], q);
      var v :| v in vs[1..] && Truthy(v.nonce) && q == Request(v.at, v.nonce.value);
      assert v in vs;
    }
  }

  lemma {:induction false} AskedInOrder(tolerance: int, since: int, vs: seq<Visit>, q: Request)
    requires InOrder(since, vs) && since <= q.at && (forall i :: 0 <= i < |vs| ==> vs[i].at <= q.at)
    ensures Monotone(since, Asked(tolerance, vs) + [q])
    decreases |vs|
  {
    if vs != [] {
      AskedInOrder(tolerance, vs[0].at, vs[1..], q);
      MonotoneCons(since, Request(vs[0].at, if Truthy(vs[0].nonce) then vs[0].nonce.value else ""),
                   Asked(tolerance, vs[1..]) + [q]);
      var rest := Asked(tolerance, vs[1..]);
      if Timely(tolerance, vs[0]).Some? {
        var head := Request(vs[0].at, vs[0].nonce.value);
        assert Asked(tolerance, vs) + [q] == [head] + (rest + [q]);
      } else {
        assert Asked(tolerance, vs) + [q] == rest + [q];
      }
    }
  }

  lemma MonotoneCons(since: int, q: Request, qs: seq<Request>)
    requires since <= q.at && Monotone(q.at, qs)
    ensures Monotone(since, qs) && Monotone(since, [q] + qs)
  {
    var all := [q] + qs;
    forall i, j | 0 <= i < j < |all| ensures all[i].at <= all[j].at {
      assert all[j] == qs[j - 1];
    }
  }

  /** The moment a visit is dated. */
  function Stamp(v: Visit): Option<int> {
    if Truthy(v.timestamp) then ParseInt(v.timestamp.value) else None
  }

  lemma TimelyStamp(tolerance: int, v: Visit)
    ensures Timely(tolerance, v).Some? ==>
      Stamp(v) == Timely(tolerance, v) && InTolerance(v.at, Stamp(v).value, tolerance) && v.nonce.Some?
  {
  }

  /**
   A request accepted at a moment later than it is dated is not accepted again at any later moment, nor is
   any other dated the same with its nonce, as long as fewer nonces are recorded in between than the store
   holds.
   */
  lemma NeverAcceptedAgain(maxSize: int, tolerance: int, verify: (Payload, string) -> bool, r: Records,
                           first: Visit, between: seq<Visit>, again: Visit)
    requires r.Valid() && Judge(tolerance, verify, r, first) == Accepted
    requires Timely(tolerance, first).value < first.at
    requires again.nonce == first.nonce && Stamp(again) == Stamp(first)
    requires InOrder(first.at, between + [again])
    requires CountAdded(maxSize, tolerance, Noted(maxSize, tolerance, r, first),
                        Asked(tolerance, between)) < Max(maxSize, 1)
    ensures
      var r' := VisitAll(maxSize, tolerance, Noted(maxSize, tolerance, r, first), between);
      Judge(tolerance, verify, r', again) != Accepted
  {
    hide ParseInt, VisitAll, Run, CountAdded, Asked, IsNew, SetIfAbsent, InOrder, Monotone, JsMap.Valid;
    var r1 := Noted(maxSize, tolerance, r, first);
    TimelyStamp(tolerance, first);
    TimelyStamp(tolerance, again);
    if Timely(tolerance, again).Some? {
      var q, q' := Request(first.at, first.nonce.value), Request(again.at, again.nonce.value);
      AskedRun(maxSize, tolerance, r1, between);
      PutOff(tolerance, first.at, between, again);
      RefusedUntilExpiry(maxSize, tolerance, r, q, Asked(tolerance, between), q');
    }
  }

  lemma PutOff(tolerance: int, since: int, between: seq<Visit>, again: Visit)
    requires InOrder(since, between + [again]) && again.nonce.Some?
    ensures Monotone(since, Asked(tolerance, between) + [Request(again.at, again.nonce.value)])
  {
    var all := between + [again];
    assert all[|between|] == again;
    forall i | 0 <= i < |between| ensures all[i] == between[i] {
    }
    AskedInOrder(tolerance, since, between, Request(again.at, again.nonce.value));
  }

  /**
   After a request was accepted, and with other nonces in between, any request with its nonce is accepted
   exactly when its headers are sent, its timestamp is close to the clock and its signature right, and the
   lifetime of the nonce is over or the store has recorded as many others as it holds.
   */
  lemma AcceptedAgainIff(maxSize: int, tolerance: int, verify: (Payload, string) -> bool, r: Records,
                         first: Visit, between: seq<Visit>, again: Visit)
    requires Tidy(maxSize, r, first.at + tolerance) && Judge(tolerance, verify, r, first) == Accepted
    requires InOrder(first.at, between + [again]) && again.nonce == first.nonce
    requires forall i :: 0 <= i < |between| ==> between[i].nonce != first.nonce
    ensures
      var r1 := Noted(maxSize, tolerance, r, first);
      Judge(tolerance, verify, VisitAll(maxSize, tolerance, r1, between), again) == Accepted
      <==> Sound(tolerance, verify, again)
           && (first.at + tolerance <= again.at
               || CountAdded(maxSize, tolerance, r1, Asked(tolerance, between)) >= Max(maxSize, 1))
  {
    hide *;
    var r1 := Noted(maxSize, tolerance, r, first);
    var r2 := VisitAll(maxSize, tolerance, r1, between);
    FirstVerdict(maxSize, tolerance, verify, r, first);
    AgainVerdict(tolerance, verify, r2, again);
    VerdictIff(tolerance, verify, r2, again);
    var q, q' := Request(first.at, first.nonce.value), Request(again.at, again.nonce.value);
    AskedRun(maxSize, tolerance, r1, between);
    PutOff(tolerance, first.at, between, again);
    forall i | 0 <= i < |Asked(tolerance, between)| ensures Asked(tolerance, between)[i].nonce != q.nonce {
      AskedOthers(tolerance, between, Asked(tolerance, between)[i], first.nonce);
    }
    ForgottenIff(maxSize, tolerance, r, q, Asked(tolerance, between), q');
  }

  lemma AskedOthers(tolerance: int, vs: seq<Visit>, q: Request, nonce: Option<string>)
    requires q in Asked(tolerance, vs) && (forall i :: 0 <= i < |vs| ==> vs[i].nonce != nonce)
    ensures nonce != Some(q.nonce)
  {
    AskedBy(tolerance, vs, q);
  }

  lemma FirstVerdict(maxSize: int, tolerance: int, verify: (Payload, string) -> bool, r: Records, first: Visit)
    requires Judge(tolerance, verify, r, first) == Accepted
    ensures first.nonce.Some? && IsNew(r, first.at, first.nonce.value)
    ensures Noted(maxSize, tolerance, r, first) == Next(maxSize, tolerance, r, Request(first.at, first.nonce.value))
  {
    hide IsNew, SetIfAbsent;
  }

  /** A nonce store only ever refuses what would be accepted without one. */
  lemma AgainVerdict(tolerance: int, verify: (Payload, string) -> bool, r: Records, again: Visit)
    requires again.nonce.Some?
    ensures Judge(tolerance, verify, r, again) == Accepted
            <==> JudgeAlone(tolerance, verify, again) == Accepted && IsNew(r, again.at, again.nonce.value)
  {
    hide IsNew;
  }

  /**
   With no other traffic, some later presentation of an accepted request is accepted too exactly when the
   request was dated no earlier than it was first accepted.
   */
  lemma ReplayIff(maxSize: int, tolerance: int, verify: (Payload, string) -> bool, r: Records, first: Visit)
    requires r.Valid() && Judge(tolerance, verify, r, first) == Accepted
    ensures
      var r1 := Noted(maxSize, tolerance, r, first);
      (exists later :: first.at <= later && Judge(tolerance, verify, r1, first.(at := later)) == Accepted)
      <==> first.at <= Timely(tolerance, first).value
  {
    hide Judge, JudgeAlone, Noted, ParseInt, Timely, IsNew, JsMap.Valid;
    var r1, t := Noted(maxSize, tolerance, r, first), Timely(tolerance, first);
    FirstVerdict(maxSize, tolerance, verify, r, first);
    FirstAlone(tolerance, verify, r, first);
    if t.value < first.at {
      forall later | first.at <= later
        ensures Judge(tolerance, verify, r1, first.(at := later)) != Accepted
      {
        NeverAcceptedAgain(maxSize, tolerance, verify, r, first, [], first.(at := later));
      }
    } else {
      var later := first.at + tolerance;
      RecordStanding(maxSize, tolerance, r, Request(first.at, first.nonce.value));
      OverIsNew(r1, first.nonce.value, later, later);
      AgainVerdict(tolerance, verify, r1, first.(at := later));
      AloneLater(tolerance, verify, first, later);
      assert Judge(tolerance, verify, r1, first.(at := later)) == Accepted;
    }
  }

  lemma FirstAlone(tolerance: int, verify: (Payload, string) -> bool, r: Records, first: Visit)
    requires Judge(tolerance, verify, r, first) == Accepted
    ensures JudgeAlone(tolerance, verify, first) == Accepted && Timely(tolerance, first).Some?
  {
    hide IsNew;
  }

  /** The same request later: its headers and its signature are as good as they were. */
  lemma AloneLater(tolerance: int, verify: (Payload, string) -> bool, first: Visit, later: int)
    requires JudgeAlone(tolerance, verify, first) == Accepted && Timely(tolerance, first).Some?
    requires InTolerance(later, Timely(tolerance, first).value, tolerance)
    ensures JudgeAlone(tolerance, verify, first.(at := later)) == Accepted
  {
    hide ParseInt;
  }
}
