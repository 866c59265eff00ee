/**
 Time-ordered token names: the byte layout of UUID version 7 (section 5.7 of RFC 9562) and its text.
 The random bytes are a parameter.
 */
module UuidV7 {
  import opened Js
  import opened Bytes

  /** v in n bytes, the most significant first. */
  function BigEndian(v: nat, n: nat): (r: seq<Byte>)
    ensures |r| == n
  {
    if n == 0 then [] else BigEndian(v / 256, n - 1) + [(v % 256) as Byte]
  }

  function FromBigEndian(bytes: seq<Byte>): nat {
    if bytes == [] then 0 else FromBigEndian(bytes[..|bytes| - 1]) * 256 + bytes[|bytes| - 1] as nat
  }

  function HexDigit(d: int): char
    requires 0 <= d < 16
  {
    if d < 10 then ('0' as int + d) as char else ('a' as int + d - 10) as char
  }

  function Hex(bytes: seq<Byte>): (s: string)
    ensures |s| == 2 * |bytes|
  {
    if bytes == [] then ""
    else [HexDigit(bytes[0] as int / 16), HexDigit(bytes[0] as int % 16)] + Hex(bytes[1..])
  }

  /** The bytes of a name: 48 bits of time, the version, 12 bits, the variant, 46 bits, and two zero bytes. */
  function Layout(ts: nat, rand: seq<Byte>): (r: seq<Byte>)
    requires |rand| == 10
    ensures |r| == 16
  {
    BigEndian(ts, 6) + [rand[2] % 16 + 0x70, rand[3], rand[4] % 64 + 0x80] + rand[5..] + [0, 0]
  }

  function Text(bytes: seq<Byte>): string
    requires |bytes| == 16
  {
    Hex(bytes[..4]) + "-" + Hex(bytes[4..6]) + "-" + Hex(bytes[6..8]) + "-" + Hex(bytes[8..10]) + "-" + Hex(bytes[10..])
  }

  function Uuid(ts: nat, rand: seq<Byte>): string
    requires |rand| == 10
  {
    Text(Layout(ts, rand))
  }

  const TWO_48: int := 0x1_0000_0000_0000
  const TWO_64: int := 0x1_0000_0000_0000_0000

  /** `Buffer.writeBigUInt64BE` at offset 0; false is its RangeError. */
  method WriteBigUInt64BE(buf: array<Byte>, value: int) returns (ok: bool)
    requires buf.Length >= 8
    modifies buf
    ensures ok <==> 0 <= value < TWO_64
    ensures ok ==> buf[..8] == BigEndian(value, 8)
    ensures forall i :: 8 <= i < buf.Length ==> buf[i] == old(buf[i])
  {
    if value < 0 || value >= TWO_64 {
      return false;
    }
    var v: nat, i := value, 8;
    while i > 0
      invariant 0 <= i <= 8
      invariant BigEndian(v, i) + buf[i..8] == BigEndian(value, 8)
      invariant forall k :: 8 <= k < buf.Length ==> buf[k] == old(buf[k])
    {
      ghost var tail := buf[i..8];
      i := i - 1;
      buf[i] := (v % 256) as Byte;
      assert buf[i..8] == [(v % 256) as Byte] + tail;
      v := v / 256;
    }
    assert buf[0..8] == buf[..8];
    return true;
  }

  /** `source.copy(target, at, from)`: as much of the source as there is room for. */
  method Copy(source: seq<Byte>, target: array<Byte>, at: nat, from: nat)
    requires at <= target.Length && from <= |source| && |source| - from <= target.Length - at
    modifies target
    ensures target[..] == old(target[..at]) + source[from..] + old(target[at + |source| - from..])
  {
    for i := 0 to |source| - from
      invariant target[..at] == old(target[..at])
      invariant target[at..at + i] == source[from..from + i]
      invariant target[at + i..] == old(target[at + i..])
    {
      target[at + i] := source[from + i];
      assert target[at..at + (i + 1)] == target[at..at + i] + [source[from + i]];
    }
    assert target[..] == target[..at] + target[at..at + (|source| - from)] + target[at + |source| - from..];
  }

  /** None is the RangeError. */
  method Uuidv7(now: int, rand: seq<Byte>) returns (name: Option<string>)
    requires |rand| == 10
    ensures name == if 0 <= now < TWO_48 then Some(Uuid(now, rand)) else None
  {
    hide BigEndian, Text, Layout, WithVersion, WithVariant;
    var buf := new Byte[16](_ => 0);
    var ok := WriteBigUInt64BE(buf, now * 65536 + (rand[0] as int * 256 + rand[1] as int));
    if !ok {
      return None;
    }
    BigEndianTail(now, rand[0], rand[1]);
    Copy(rand, buf, 6, 2);
    ghost var bytes := buf[..];
    assert bytes == BigEndian(now, 6) + rand[2..] + [0, 0];
    LayoutOf(now, rand, bytes);
    VersionBits(buf[6]);
    VariantBits(buf[8]);
    buf[6] := WithVersion(buf[6]);
    buf[8] := WithVariant(buf[8]);
    assert buf[..] == bytes[6 := bytes[6] % 16 + 0x70][8 := bytes[8] % 64 + 0x80];
    return Some(Text(buf[..]));
  }

  lemma BigEndianStep(v: nat, b: Byte, n: nat)
    ensures BigEndian(v * 256 + b as int, n + 1) == BigEndian(v, n) + [b]
  {
  }

  lemma BigEndianTail(ts: nat, b0: Byte, b1: Byte)
    ensures BigEndian(ts * 65536 + (b0 as int * 256 + b1 as int), 8) == BigEndian(ts, 6) + [b0, b1]
  {
    hide BigEndian;
    BigEndianStep(ts, b0, 6);
    BigEndianStep(ts * 256 + b0 as int, b1, 7);
    assert (ts * 256 + b0 as int) * 256 + b1 as int == ts * 65536 + (b0 as int * 256 + b1 as int);
  }

  lemma LayoutOf(ts: nat, rand: seq<Byte>, bytes: seq<Byte>)
    requires |rand| == 10 && bytes == BigEndian(ts, 6) + rand[2..] + [0, 0]
    ensures bytes[6 := bytes[6] % 16 + 0x70][8 := bytes[8] % 64 + 0x80] == Layout(ts, rand)
  {
    hide BigEndian;
    assert bytes[6] == rand[2] && bytes[7] == rand[3] && bytes[8] == rand[4] && bytes[9..14] == rand[5..];
  }

  // ---------- the time can be read back ----------

  ghost function Power256(n: nat): nat {
    if n == 0 then 1 else 256 * Power256(n - 1)
  }

  lemma {:induction false} ReadBack(v: nat, n: nat)
    requires v < Power256(n)
    ensures FromBigEndian(BigEndian(v, n)) == v
  {
    if n > 0 {
      ReadBack(v / 256, n - 1);
      var bytes := BigEndian(v, n);
      assert bytes[..|bytes| - 1] == BigEndian(v / 256, n - 1);
    }
  }

  function DigitValue(c: char): int {
    if '0' <= c <= '9' then c as int - '0' as int else if 'a' <= c <= 'f' then c as int - 'a' as int + 10 else 0
  }

  function Unhex(s: string): seq<Byte> {
    if |s| < 2 then []
    else
      var v := DigitValue(s[0]) * 16 + DigitValue(s[1]);
      [(if v < 256 then v else 0) as Byte] + Unhex(s[2..])
  }

  lemma {:induction false} UnhexHex(bytes: seq<Byte>)
    ensures Unhex(Hex(bytes)) == bytes
  {
    if bytes != [] {
      UnhexHex(bytes[1..]);
      var s := Hex(bytes);
      assert s[2..] == Hex(bytes[1..]);
      assert bytes == [bytes[0]] + bytes[1..];
    }
  }

  lemma {:induction false} HexConcat(a: seq<Byte>, b: seq<Byte>)
    ensures Hex(a + b) == Hex(a) + Hex(b)
  {
    if a == [] {
      assert a + b == b;
    } else {
      assert (a + b)[1..] == a[1..] + b;
      HexConcat(a[1..], b);
    }
  }

  /** The text without its hyphens. */
  function Digits(name: string): string
    requires |name| == 36
  {
    name[..8] + name[9..13] + name[14..18] + name[19..23] + name[24..]
  }

  lemma DigitsOfJoined(a: string, b: string, c: string, d: string, e: string)
    requires |a| == 8 && |b| == |c| == |d| == 4 && |e| == 12
    ensures var name := a + "-" + b + "-" + c + "-" + d + "-" + e; |name| == 36 && Digits(name) == a + b + c + d + e
  {
    var name := a + "-" + b + "-" + c + "-" + d + "-" + e;
    assert name[..8] == a && name[9..13] == b && name[14..18] == c && name[19..23] == d && name[24..] == e;
  }

  lemma DigitsOfText(bytes: seq<Byte>)
    requires |bytes| == 16
    ensures |Text(bytes)| == 36 && Digits(Text(bytes)) == Hex(bytes)
  {
    hide Hex;
    DigitsOfJoined(Hex(bytes[..4]), Hex(bytes[4..6]), Hex(bytes[6..8]), Hex(bytes[8..10]), Hex(bytes[10..]));
    HexConcat(bytes[..4], bytes[4..6]);
    HexConcat(bytes[..6], bytes[6..8]);
    HexConcat(bytes[..8], bytes[8..10]);
    HexConcat(bytes[..10], bytes[10..]);
    assert bytes[..4] + bytes[4..6] == bytes[..6] && bytes[..6] + bytes[6..8] == bytes[..8];
    assert bytes[..8] + bytes[8..10] == bytes[..10] && bytes[..10] + bytes[10..] == bytes;
  }

  lemma TextInjective(a: seq<Byte>, b: seq<Byte>)
    requires |a| == |b| == 16 && Text(a) == Text(b)
    ensures a == b
  {
    DigitsOfText(a);
    DigitsOfText(b);
    UnhexHex(a);
    UnhexHex(b);
  }

  /** The first twelve hex digits are the time, the next is the version and the seventeenth holds the variant. */
  lemma Fields(ts: nat, rand: seq<Byte>)
    requires |rand| == 10 && ts < TWO_48
    ensures
      var name := Uuid(ts, rand);
      && |name| == 36
      && FromBigEndian(Unhex(Digits(name)[..12])) == ts
      && Digits(name)[12] == '7' && Digits(name)[16] in "89ab"
      && name[8] == name[13] == name[18] == name[23] == '-'
  {
    var bytes := Layout(ts, rand);
    DigitsOfText(bytes);
    FirstDigits(bytes);
    UnhexHex(bytes[..6]);
    assert bytes[..6] == BigEndian(ts, 6);
    Powers();
    ReadBack(ts, 6);
  }

  lemma FirstDigits(bytes: seq<Byte>)
    requires |bytes| == 16
    ensures Hex(bytes)[..12] == Hex(bytes[..6])
    ensures Hex(bytes)[12] == HexDigit(bytes[6] as int / 16) && Hex(bytes)[16] == HexDigit(bytes[8] as int / 16)
  {
    assert bytes == bytes[..6] + bytes[6..] && bytes == bytes[..8] + bytes[8..];
    HexConcat(bytes[..6], bytes[6..]);
    HexConcat(bytes[..8], bytes[8..]);
  }

  // ---------- what of the randomness is kept ----------

  /** The random bits a name carries: 4 of the third byte, 6 of the fifth, and all of six others. */
  ghost predicate SameKeptBits(a: seq<Byte>, b: seq<Byte>)
    requires |a| == |b| == 10
  {
    a[2] % 16 == b[2] % 16 && a[3] == b[3] && a[4] % 64 == b[4] % 64 && a[5..] == b[5..]
  }

  /** Two names are the same exactly when their times and these 58 bits are; 74 is what the documentation says. */
  lemma SameNameIff(ts: nat, a: seq<Byte>, ts': nat, b: seq<Byte>)
    requires |a| == |b| == 10 && ts < TWO_48 && ts' < TWO_48
    ensures Uuid(ts, a) == Uuid(ts', b) <==> ts == ts' && SameKeptBits(a, b)
  {
    var la, lb := Layout(ts, a), Layout(ts', b);
    if Uuid(ts, a) == Uuid(ts', b) {
      TextInjective(la, lb);
      Powers();
      ReadBack(ts, 6);
      ReadBack(ts', 6);
      assert la[..6] == BigEndian(ts, 6) && lb[..6] == BigEndian(ts', 6);
      assert la[6] == lb[6] && la[7] == lb[7] && la[8] == lb[8];
      assert la[9..14] == a[5..] && lb[9..14] == b[5..];
    }
  }

  // ---------- names sort by time ----------

  /** JavaScript's `<` on strings. */
  predicate Less(s: string, t: string) {
    if t == "" then false else s == "" || s[0] < t[0] || (s[0] == t[0] && Less(s[1..], t[1..]))
  }

  lemma {:induction false} LessPrefix(p: string, s: string, t: string)
    ensures Less(p + s, p + t) == Less(s, t)
  {
    if p == "" {
      assert p + s == s && p + t == t;
    } else {
      assert (p + s)[1..] == p[1..] + s && (p + t)[1..] == p[1..] + t;
      LessPrefix(p[1..], s, t);
    }
  }

  lemma {:induction false} LessExtends(s: string, t: string, x: string, y: string)
    requires |s| == |t| && Less(s, t)
    ensures Less(s + x, t + y)
  {
    assert (s + x)[1..] == s[1..] + x && (t + y)[1..] == t[1..] + y;
    if s[0] == t[0] {
      LessExtends(s[1..], t[1..], x, y);
    }
  }

  lemma {:induction false} LessAsymmetric(s: string, t: string)
    requires Less(s, t)
    ensures !Less(t, s)
  {
    if s != "" && s[0] == t[0] {
      LessAsymmetric(s[1..], t[1..]);
    }
  }

  lemma {:induction false} HexLess(a: nat, b: nat, n: nat)
    requires a < b < Power256(n)
    ensures Less(Hex(BigEndian(a, n)), Hex(BigEndian(b, n)))
  {
    if n > 0 {
      var x, y := [(a % 256) as Byte], [(b % 256) as Byte];
      HexConcat(BigEndian(a / 256, n - 1), x);
      HexConcat(BigEndian(b / 256, n - 1), y);
      if a / 256 < b / 256 {
        HexLess(a / 256, b / 256, n - 1);
        LessExtends(Hex(BigEndian(a / 256, n - 1)), Hex(BigEndian(b / 256, n - 1)), Hex(x), Hex(y));
      } else {
        ByteLess(x[0], y[0]);
        LessPrefix(Hex(BigEndian(a / 256, n - 1)), Hex(x), Hex(y));
      }
    }
  }

  lemma ByteLess(x: Byte, y: Byte)
    requires x < y
    ensures Less(Hex([x]), Hex([y]))
  {
    assert [x][1..] == [] && [y][1..] == [];
    var s, t := Hex([x]), Hex([y]);
    assert s == [HexDigit(x as int / 16), HexDigit(x as int % 16)] && t == [HexDigit(y as int / 16),
                                                                            HexDigit(y as int % 16)];
    assert s[1..] == [HexDigit(x as int % 16)] && t[1..] == [HexDigit(y as int % 16)];
  }

  lemma Powers()
    ensures Power256(2) == 0x1_0000 && Power256(4) == 0x1_0000_0000 && Power256(6) == TWO_48
  {
    assert Power256(3) == 0x100_0000 && Power256(5) == 0x100_0000_0000;
  }

  lemma BigEndianSplit(ts: nat)
    ensures BigEndian(ts, 6) == BigEndian(ts / 65536, 4) + BigEndian(ts % 65536, 2)
  {
    assert BigEndian(ts, 6) == BigEndian(ts / 256, 5) + [(ts % 256) as Byte];
    assert BigEndian(ts / 256, 5) == BigEndian(ts / 256 / 256, 4) + [(ts / 256 % 256) as Byte];
    assert ts / 256 / 256 == ts / 65536;
    assert BigEndian(ts % 65536, 2) == [(ts / 256 % 256) as Byte, (ts % 256) as Byte];
  }

  /** What follows the time in a name. */
  function Rest(l: seq<Byte>): string
    requires |l| == 16
  {
    "-" + Hex(l[6..8]) + "-" + Hex(l[8..10]) + "-" + Hex(l[10..])
  }

  /** The text's first hyphen falls inside the time: high four bytes, hyphen, low two. */
  lemma TextStart(ts: nat, rand: seq<Byte>)
    requires |rand| == 10
    ensures Uuid(ts, rand) ==
      Hex(BigEndian(ts / 65536, 4)) + ("-" + (Hex(BigEndian(ts % 65536, 2)) + Rest(Layout(ts, rand))))
  {
    hide Hex, BigEndian;
    var l := Layout(ts, rand);
    BigEndianSplit(ts);
    assert l[..4] == BigEndian(ts / 65536, 4) && l[4..6] == BigEndian(ts % 65536, 2);
  }

  lemma EarlierIsLess(ts: nat, rand: seq<Byte>, later: nat, rand': seq<Byte>)
    requires |rand| == |rand'| == 10 && ts < later < TWO_48
    ensures Less(Uuid(ts, rand), Uuid(later, rand'))
  {
    hide Less, Hex, BigEndian, Uuid, Rest, Power256;
    var x, y := Rest(Layout(ts, rand)), Rest(Layout(later, rand'));
    var high, high' := Hex(BigEndian(ts / 65536, 4)), Hex(BigEndian(later / 65536, 4));
    var low, low' := Hex(BigEndian(ts % 65536, 2)), Hex(BigEndian(later % 65536, 2));
    TextStart(ts, rand);
    TextStart(later, rand');
    Powers();
    if ts / 65536 < later / 65536 {
      HexLess(ts / 65536, later / 65536, 4);
      LessExtends(high, high', "-" + (low + x), "-" + (low' + y));
    } else {
      HexLess(ts % 65536, later % 65536, 2);
      LessExtends(low, low', x, y);
      LessPrefix("-", low + x, low' + y);
      LessPrefix(high, "-" + (low + x), "-" + (low' + y));
    }
  }

  /** Of two names made at different times the earlier is the lexicographically smaller, whatever the random bytes. */
  lemma SortsByTime(ts: nat, rand: seq<Byte>, ts': nat, rand': seq<Byte>)
    requires |rand| == |rand'| == 10 && ts < TWO_48 && ts' < TWO_48 && ts != ts'
    ensures Less(Uuid(ts, rand), Uuid(ts', rand')) <==> ts < ts'
  {
    if ts < ts' {
      EarlierIsLess(ts, rand, ts', rand');
    } else {
      EarlierIsLess(ts', rand', ts, rand);
      LessAsymmetric(Uuid(ts', rand'), Uuid(ts, rand));
    }
  }
}
