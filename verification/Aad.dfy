/** The associated data of a record, and reading it back. */
module Aad {
  import opened Record

  const SEPARATOR: Byte := 0x1f

  predicate IsI64(x: int) { -0x8000_0000_0000_0000 <= x < 0x8000_0000_0000_0000 }

  /** The last `n` base-256 digits, most significant first. */
  function BigEndian(u: nat, n: nat): (r: Text)
    ensures |r| == n
  {
    if n == 0 then [] else BigEndian(u / 256, n - 1) + [u % 256]
  }

  function FromBigEndian(s: Text): nat {
    if s == [] then 0 else FromBigEndian(s[..|s| - 1]) * 256 + s[|s| - 1]
  }

  function Power256(n: nat): nat { if n == 0 then 1 else 256 * Power256(n - 1) }

  lemma {:induction false} FromBigEndianInverts(u: nat, n: nat)
    requires u < Power256(n)
    ensures FromBigEndian(BigEndian(u, n)) == u
  {
    if n > 0 {
      FromBigEndianInverts(u / 256, n - 1);
      var high := BigEndian(u / 256, n - 1);
      assert (high + [u % 256])[..n - 1] == high;
    }
  }

  lemma {:induction false} AtLeastOnce(m: nat, k: nat)
    requires k > 0
    ensures m * k >= m
  {
    if k > 1 {
      AtLeastOnce(m, k - 1);
      assert m * k == m * (k - 1) + m;
    }
  }

  lemma QuotientIsUnique(m: nat, q: int, t: nat, r: int, v: nat)
    requires t < m && v < m && m * q + t == m * r + v
    ensures q == r
  {
    var k := q - r;
    assert m * q - m * r == m * k;
    if k > 0 {
      AtLeastOnce(m, k);
    } else if k < 0 {
      assert m * (-k) == -(m * k);
      AtLeastOnce(m, -k);
    }
  }

  lemma Dividing(u: nat, d: nat)
    requires d > 0
    ensures u / 256 / d == u / (256 * d)
  {
    var m, w := 256 * d, u / 256;
    var q, r := w / d, w % d;
    assert u == 256 * w + u % 256 && w == d * q + r;
    assert u == m * q + (256 * r + u % 256);
    assert u == m * (u / m) + u % m;
    QuotientIsUnique(m, q, 256 * r + u % 256, u / m, u % m);
  }

  /** Each byte is a digit of the number, and the most significant comes first. */
  lemma {:induction false} DigitOf(u: nat, n: nat, i: nat)
    requires i < n
    ensures Power256(n - 1 - i) > 0 && BigEndian(u, n)[i] == u / Power256(n - 1 - i) % 256
  {
    if i < n - 1 {
      DigitOf(u / 256, n - 1, i);
      Dividing(u, Power256(n - 2 - i));
    }
  }

  /** `i64::to_be_bytes`: two's complement. */
  function ToBeBytes(x: int): (r: Text)
    requires IsI64(x)
    ensures |r| == 8
  {
    BigEndian(if x < 0 then x + 0x1_0000_0000_0000_0000 else x, 8)
  }

  /** Eight digits of the number modulo 2 to the 64th, most significant first. */
  lemma ClockBytes(x: int, i: nat)
    requires IsI64(x) && i < 8
    ensures Power256(7 - i) > 0
    ensures ToBeBytes(x)[i] == (if x < 0 then x + 0x1_0000_0000_0000_0000 else x) / Power256(7 - i) % 256
  {
    DigitOf(if x < 0 then x + 0x1_0000_0000_0000_0000 else x, 8, i);
  }

  function FromBeBytes(s: Text): int {
    var u := FromBigEndian(s);
    if u >= 0x8000_0000_0000_0000 then u - 0x1_0000_0000_0000_0000 else u
  }

  lemma FromBeBytesInverts(x: int)
    requires IsI64(x)
    ensures FromBeBytes(ToBeBytes(x)) == x
  {
    assert Power256(4) == 0x1_0000_0000;
    assert Power256(8) == 0x1_0000_0000_0000_0000;
    FromBigEndianInverts(if x < 0 then x + 0x1_0000_0000_0000_0000 else x, 8);
  }

  function Ascii(s: string): Text
    requires forall i | 0 <= i < |s| :: s[i] as int < 128
  {
    seq(|s|, i requires 0 <= i < |s| => s[i] as int)
  }

  function FromAscii(t: Text): string { seq(|t|, i requires 0 <= i < |t| => t[i] as char) }

  function KindBytes(kind: RecordKind): (r: Text)
    ensures SEPARATOR !in r && FromAscii(r) == AsStr(kind)
  {
    Ascii(AsStr(kind))
  }

  /** The four fields, with separators between them. */
  function AadOf(env: Envelope): Text
    requires IsI64(env.updatedAt)
  {
    env.id + [SEPARATOR] + KindBytes(env.kind) + [SEPARATOR] + ToBeBytes(env.updatedAt) + [SEPARATOR] + env.deviceId
  }

  method BuildAad(env: Envelope) returns (out: Text)
    requires IsI64(env.updatedAt)
    ensures out == AadOf(env)
  {
    out := env.id;
    out := out + [SEPARATOR];
    out := out + KindBytes(env.kind);
    out := out + [SEPARATOR];
    out := out + ToBeBytes(env.updatedAt);
    out := out + [SEPARATOR];
    out := out + env.deviceId;
  }

  datatype Bound = Bound(id: Text, kind: RecordKind, updatedAt: int, deviceId: Text)

  function BoundOf(env: Envelope): Bound { Bound(env.id, env.kind, env.updatedAt, env.deviceId) }

  function NextSeparator(t: Text, i: nat): (n: nat)
    requires i <= |t|
    ensures i <= n <= |t| && (n < |t| ==> t[n] == SEPARATOR) && forall j | i <= j < n :: t[j] != SEPARATOR
    decreases |t| - i
  {
    if i == |t| || t[i] == SEPARATOR then i else NextSeparator(t, i + 1)
  }

  /** Two fields up to their separators, eight clock bytes, a separator, and the rest. */
  function ParseAad(t: Text): Option<Bound> {
    var a := NextSeparator(t, 0);
    if a == |t| then None else
      var b := NextSeparator(t, a + 1);
      if b + 10 > |t| || t[b + 9] != SEPARATOR then None else
        match Parse(FromAscii(t[a + 1..b]))
        case None => None
        case Some(kind) => Some(Bound(t[..a], kind, FromBeBytes(t[b + 1..b + 9]), t[b + 10..]))
  }

  /** Where the pieces of the associated data stand. */
  lemma Layout(env: Envelope)
    requires IsI64(env.updatedAt)
    ensures var t, n, m := AadOf(env), |env.id|, |env.id| + 1 + |KindBytes(env.kind)|;
            && |t| == m + 10 + |env.deviceId|
            && t[..n] == env.id && t[n] == 0x1f
            && FromAscii(t[n + 1..m]) == AsStr(env.kind) && t[n + 1..m] == KindBytes(env.kind) && t[m] == 0x1f
            && t[m + 1..m + 9] == ToBeBytes(env.updatedAt) && t[m + 9] == 0x1f
            && t[m + 10..] == env.deviceId
  {}

  lemma {:induction false} SeparatorIs(t: Text, i: nat, n: nat)
    requires i <= n < |t| && t[n] == SEPARATOR && forall j | i <= j < n :: t[j] != SEPARATOR
    ensures NextSeparator(t, i) == n
    decreases n - i
  {
    if i < n { SeparatorIs(t, i + 1, n); }
  }

  lemma SeparatorsOf(env: Envelope)
    requires IsI64(env.updatedAt) && SEPARATOR !in env.id
    ensures NextSeparator(AadOf(env), 0) == |env.id|
    ensures NextSeparator(AadOf(env), |env.id| + 1) == |env.id| + 1 + |KindBytes(env.kind)|
  {
    var t, n, m := AadOf(env), |env.id|, |env.id| + 1 + |KindBytes(env.kind)|;
    Layout(env);
    hide AadOf, ToBeBytes, NextSeparator;
    forall j | 0 <= j < n ensures t[j] != SEPARATOR { assert t[j] == t[..n][j]; }
    forall j | n + 1 <= j < m ensures t[j] != SEPARATOR { assert t[j] == t[n + 1..m][j - n - 1]; }
    SeparatorIs(t, 0, n);
    SeparatorIs(t, n + 1, m);
  }

  lemma AadReadsBack(env: Envelope)
    requires IsI64(env.updatedAt) && SEPARATOR !in env.id
    ensures ParseAad(AadOf(env)) == Some(BoundOf(env))
  {
    hide AadOf, ToBeBytes, FromBeBytes, FromBigEndian, Parse, AsStr, NextSeparator;
    Layout(env);
    SeparatorsOf(env);
    FromBeBytesInverts(env.updatedAt);
    ParseInvertsAsStr(AsStr(env.kind), env.kind);
  }

  /**
   The associated data can be read back into exactly the fields it binds - clock bytes and
   device ids may hold any byte at all - if and only if the id has no separator in it.
   */
  lemma AadReadsBackIff(env: Envelope)
    requires IsI64(env.updatedAt)
    ensures ParseAad(AadOf(env)) == Some(BoundOf(env)) <==> 0x1f !in env.id
  {
    if SEPARATOR !in env.id {
      AadReadsBack(env);
    } else {
      hide AadOf, FromBeBytes, Parse;
      var t := AadOf(env);
      assert SEPARATOR !in t[..NextSeparator(t, 0)];
    }
  }

  /**
   So no ciphertext opens under another record's id, kind, clock or device: two envelopes seal
   against the same data exactly when they agree on all four, whatever else differs.
   */
  lemma AadBindsFourFields(a: Envelope, b: Envelope)
    requires IsI64(a.updatedAt) && IsI64(b.updatedAt) && 0x1f !in a.id && 0x1f !in b.id
    ensures AadOf(a) == AadOf(b) <==> BoundOf(a) == BoundOf(b)
  {
    AadReadsBackIff(a);
    AadReadsBackIff(b);
  }

  /** All that stands between the id and the device id. */
  function Middle(kind: RecordKind, updatedAt: int): Text
    requires IsI64(updatedAt)
  {
    [SEPARATOR] + KindBytes(kind) + [SEPARATOR] + ToBeBytes(updatedAt) + [SEPARATOR]
  }

  lemma AroundTheMiddle(env: Envelope)
    requires IsI64(env.updatedAt)
    ensures AadOf(env) == env.id + Middle(env.kind, env.updatedAt) + env.deviceId
  {
    hide KindBytes, ToBeBytes;
  }

  /** With a separator in an id two different records can share their associated data. */
  lemma ASeparatorInAnIdCollides() returns (a: Envelope, b: Envelope)
    ensures IsI64(a.updatedAt) && IsI64(b.updatedAt)
    ensures AadOf(a) == AadOf(b) && BoundOf(a) != BoundOf(b)
  {
    var middle := Middle(Host, 0);
    var id: Text, tail: Text := [0x61], [0x64];
    a := Envelope(id, Host, Personal, None, None, 0, 0, middle + tail, None, [], [], 0);
    b := a.(id := id + middle, deviceId := tail);
    AroundTheMiddle(a);
    AroundTheMiddle(b);
    assert |a.deviceId| != |b.deviceId|;
    hide AadOf, Middle;
    assert id + middle + (middle + tail) == (id + middle) + middle + tail;
  }
}
