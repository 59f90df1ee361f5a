/**
 * The bytes behind credential snapshot digests and field encryption contexts:
 * backend/src/ai_employee/application/calendar_aad_digests.py and calendar_event_aad.py. Length
 * frames can be read back one after the other, so the bytes determine every field.
 */
module Frames {
  import opened Decimals
  import opened Prelude
  import Utf8

  datatype Rejected = Rejected

  const MAX_FRAME := 0xFFFF_FFFF

  // ---------------------------------------------------------------- fixed texts

  /** The bytes of an ASCII literal. */
  function Ascii(s: string): (b: Bytes)
    ensures |b| == |s|
  {
    seq(|s|, i requires 0 <= i < |s| => if s[i] < 128 as char then s[i] as int else 0)
  }

  function Hex(b: Bytes): (s: Bytes)
    ensures |s| == 2 * |b|
  {
    if b == [] then [] else [LowerHex(b[0] / 16), LowerHex(b[0] % 16)] + Hex(b[1..])
  }

  /** A UUID is its sixteen bytes; its text is lower-case hexadecimal with four hyphens. */
  type Uuid = u: Bytes | |u| == 16 witness seq(16, _ => 0)

  function UuidText(u: Uuid): (s: Bytes)
    ensures |s| == 36
  {
    Hex(u[..4]) + [45] + Hex(u[4..6]) + [45] + Hex(u[6..8]) + [45] + Hex(u[8..10]) + [45] + Hex(u[10..])
  }

  /** The last `width` decimal digits of `n`. */
  function Fixed(n: nat, width: nat): (s: Bytes)
    ensures |s| == width
  {
    if width == 0 then [] else Fixed(n / 10, width - 1) + [48 + n % 10]
  }

  /** A UTC `datetime`. */
  datatype Timestamp = Timestamp(year: int, month: int, day: int, hour: int, minute: int, second: int, micro: int) {
    predicate Valid() {
      1 <= year <= 9999 && 1 <= month <= 12 && 1 <= day <= 31
      && 0 <= hour < 24 && 0 <= minute < 60 && 0 <= second < 60 && 0 <= micro < 1_000_000
    }
  }

  type Utc = t: Timestamp | t.Valid() witness Timestamp(1, 1, 1, 0, 0, 0, 0)

  /** `canonical_utc`. */
  function UtcText(t: Utc): (s: Bytes)
    ensures |s| == 27
  {
    Fixed(t.year, 4) + [45] + Fixed(t.month, 2) + [45] + Fixed(t.day, 2) + [84] +
    Fixed(t.hour, 2) + [58] + Fixed(t.minute, 2) + [58] + Fixed(t.second, 2) + [46] + Fixed(t.micro, 6) + [90]
  }

  lemma {:induction false} HexIsInjective(a: Bytes, b: Bytes)
    requires |a| == |b| && Hex(a) == Hex(b)
    ensures a == b
  {
    if a != [] {
      assert Hex(a)[0] == LowerHex(a[0] / 16) && Hex(a)[1] == LowerHex(a[0] % 16);
      assert Hex(b)[0] == LowerHex(b[0] / 16) && Hex(b)[1] == LowerHex(b[0] % 16);
      assert a[0] == a[0] / 16 * 16 + a[0] % 16 && b[0] == b[0] / 16 * 16 + b[0] % 16;
      assert Hex(a)[2..] == Hex(a[1..]) && Hex(b)[2..] == Hex(b[1..]);
      HexIsInjective(a[1..], b[1..]);
      assert a == [a[0]] + a[1..] && b == [b[0]] + b[1..];
    }
  }

  lemma UuidTextIsInjective(u: Uuid, v: Uuid)
    requires UuidText(u) == UuidText(v)
    ensures u == v
  {
    UuidParts(u);
    UuidParts(v);
    HexIsInjective(u[..4], v[..4]);
    HexIsInjective(u[4..6], v[4..6]);
    HexIsInjective(u[6..8], v[6..8]);
    HexIsInjective(u[8..10], v[8..10]);
    HexIsInjective(u[10..], v[10..]);
    assert u == u[..4] + u[4..6] + u[6..8] + u[8..10] + u[10..];
    assert v == v[..4] + v[4..6] + v[6..8] + v[8..10] + v[10..];
  }

  lemma UuidParts(u: Uuid)
    ensures var s := UuidText(u);
      s[..8] == Hex(u[..4]) && s[9..13] == Hex(u[4..6]) && s[14..18] == Hex(u[6..8])
      && s[19..23] == Hex(u[8..10]) && s[24..] == Hex(u[10..])
  {
  }

  lemma {:induction false} FixedIsInjective(m: nat, n: nat, width: nat)
    requires m < Pow10(width) && n < Pow10(width) && Fixed(m, width) == Fixed(n, width)
    ensures m == n
  {
    if width > 0 {
      assert Fixed(m, width)[..width - 1] == Fixed(m / 10, width - 1);
      assert Fixed(n, width)[..width - 1] == Fixed(n / 10, width - 1);
      assert Fixed(m, width)[width - 1] == 48 + m % 10 && Fixed(n, width)[width - 1] == 48 + n % 10;
      FixedIsInjective(m / 10, n / 10, width - 1);
    }
  }

  /** Each character is the decimal digit of its place. */
  lemma {:induction false} FixedIsDecimal(n: nat, width: nat, k: nat)
    requires k < width
    ensures Fixed(n, width)[k] == 48 + n / Pow10(width - 1 - k) % 10
  {
    if k < width - 1 {
      FixedIsDecimal(n / 10, width - 1, k);
      DivideTwice(n, Pow10(width - 2 - k));
    } else {
      assert Pow10(0) == 1;
    }
  }

  lemma DivideTwice(n: nat, p: nat)
    requires p > 0
    ensures n / 10 / p == n / (10 * p)
  {
    var q, r := n / 10 / p, n / 10 % p;
    assert n / 10 == q * p + r && n == 10 * (n / 10) + n % 10;
    assert n == q * (10 * p) + (10 * r + n % 10);
    QuotientIs(n, 10 * p, q, 10 * r + n % 10);
  }

  lemma QuotientIs(n: nat, d: nat, q: nat, r: nat)
    requires n == q * d + r && r < d
    ensures n / d == q
  {
    var k := n / d;
    assert n == k * d + n % d;
    if k < q {
      LessByOne(k, q, d);
    } else if q < k {
      LessByOne(q, k, d);
    }
  }

  lemma LessByOne(a: nat, b: nat, d: nat)
    requires a < b
    ensures a * d + d <= b * d
  {
    var more := b - a - 1;
    assert b * d == a * d + d + more * d;
  }

  lemma UtcTextIsInjective(s: Utc, t: Utc)
    requires UtcText(s) == UtcText(t)
    ensures s == t
  {
    UtcParts(s);
    UtcParts(t);
    assert Pow10(2) == 100 && Pow10(4) == 10_000 && Pow10(6) == 1_000_000 by { SmallPowers(); }
    FixedIsInjective(s.year, t.year, 4);
    FixedIsInjective(s.month, t.month, 2);
    FixedIsInjective(s.day, t.day, 2);
    FixedIsInjective(s.hour, t.hour, 2);
    FixedIsInjective(s.minute, t.minute, 2);
    FixedIsInjective(s.second, t.second, 2);
    FixedIsInjective(s.micro, t.micro, 6);
  }

  lemma SmallPowers()
    ensures Pow10(2) == 100 && Pow10(4) == 10_000 && Pow10(6) == 1_000_000
  {
    assert Pow10(1) == 10;
    assert Pow10(3) == 1000;
    assert Pow10(5) == 100_000;
  }

  lemma UtcParts(t: Utc)
    ensures var s := UtcText(t);
      s[..4] == Fixed(t.year, 4) && s[5..7] == Fixed(t.month, 2) && s[8..10] == Fixed(t.day, 2)
      && s[11..13] == Fixed(t.hour, 2) && s[14..16] == Fixed(t.minute, 2) && s[17..19] == Fixed(t.second, 2)
      && s[20..26] == Fixed(t.micro, 6)
  {
    hide Fixed;
  }

  // ---------------------------------------------------------------- frames

  function Length4(n: nat): (b: Bytes)
    requires n <= MAX_FRAME
    ensures |b| == 4
  {
    [n / 256 / 256 / 256, n / 256 / 256 % 256, n / 256 % 256, n % 256]
  }

  lemma Length4IsInjective(m: nat, n: nat)
    requires m <= MAX_FRAME && n <= MAX_FRAME && Length4(m) == Length4(n)
    ensures m == n
  {
    assert Length4(m)[0] == Length4(n)[0] && Length4(m)[1] == Length4(n)[1];
    assert Length4(m)[2] == Length4(n)[2] && Length4(m)[3] == Length4(n)[3];
  }

  /** `_frame`: a length and the bytes. */
  function Sized(raw: Bytes): Result<Bytes, Rejected> {
    if |raw| > MAX_FRAME then Err(Rejected) else Ok(Length4(|raw|) + raw)
  }

  /** `frame`: NULL is one byte, anything else a tag and a sized field. */
  function Frame(value: Option<Bytes>): Result<Bytes, Rejected> {
    match value
    case None => Ok([0])
    case Some(raw) =>
      var sized :- Sized(raw);
      Ok([1] + sized)
  }

  /** The bytes of a present field: a one, its length with the highest byte first, and the field itself. */
  lemma FrameLayout(raw: Bytes)
    requires |raw| <= MAX_FRAME
    ensures Frame(Some(raw)).Ok? && |Frame(Some(raw)).value| == 5 + |raw|
    ensures var r: seq<int> := Frame(Some(raw)).value;
      r[0] == 1 && r[5..] == raw && |raw| == ((r[1] * 256 + r[2]) * 256 + r[3]) * 256 + r[4]
  {
    var r := Frame(Some(raw)).value;
    assert r[1..5] == Length4(|raw|) && r[5..] == raw;
    assert r[1] == r[1..5][0] && r[2] == r[1..5][1] && r[3] == r[1..5][2] && r[4] == r[1..5][3];
  }

  function FrameAll(values: seq<Option<Bytes>>): Result<Bytes, Rejected> {
    if values == [] then Ok([])
    else
      var first :- Frame(values[0]);
      var rest :- FrameAll(values[1..]);
      Ok(first + rest)
  }

  function SizeAll(values: seq<Bytes>): Result<Bytes, Rejected> {
    if values == [] then Ok([])
    else
      var first :- Sized(values[0]);
      var rest :- SizeAll(values[1..]);
      Ok(first + rest)
  }

  /** A sized field ends where its length says, whatever follows. */
  lemma SizedIsPrefixFree(a: Bytes, b: Bytes, after: Bytes, after': Bytes)
    requires Sized(a).Ok? && Sized(b).Ok? && Sized(a).value + after == Sized(b).value + after'
    ensures a == b && after == after'
  {
    var x, y := Sized(a).value + after, Sized(b).value + after';
    assert x[..4] == Length4(|a|) && y[..4] == Length4(|b|);
    Length4IsInjective(|a|, |b|);
    assert x[4..4 + |a|] == a && y[4..4 + |a|] == b;
    assert x[4 + |a|..] == after && y[4 + |a|..] == after';
  }

  lemma FrameIsPrefixFree(a: Option<Bytes>, b: Option<Bytes>, after: Bytes, after': Bytes)
    requires Frame(a).Ok? && Frame(b).Ok? && Frame(a).value + after == Frame(b).value + after'
    ensures a == b && after == after'
  {
    var x, y := Frame(a).value + after, Frame(b).value + after';
    assert x[0] == Frame(a).value[0] && y[0] == Frame(b).value[0];
    if a.Some? {
      assert x[1..] == Sized(a.value).value + after && y[1..] == Sized(b.value).value + after';
      SizedIsPrefixFree(a.value, b.value, after, after');
    } else {
      assert x[1..] == after && y[1..] == after';
    }
  }

  /** Equally many frames are read back exactly, NULL and empty apart. */
  lemma {:induction false} FramesDetermineFields(a: seq<Option<Bytes>>, b: seq<Option<Bytes>>, after: Bytes,
    after': Bytes)
    requires |a| == |b| && FrameAll(a).Ok? && FrameAll(b).Ok?
    requires FrameAll(a).value + after == FrameAll(b).value + after'
    ensures a == b && after == after'
  {
    if a == [] {
      assert [] + after == after && [] + after' == after';
    } else {
      var p, q := FrameAll(a[1..]).value, FrameAll(b[1..]).value;
      assert FrameAll(a).value + after == Frame(a[0]).value + (p + after);
      assert FrameAll(b).value + after' == Frame(b[0]).value + (q + after');
      FrameIsPrefixFree(a[0], b[0], p + after, q + after');
      FramesDetermineFields(a[1..], b[1..], after, after');
      assert a == [a[0]] + a[1..] && b == [b[0]] + b[1..];
    }
  }

  lemma {:induction false} SizesDetermineFields(a: seq<Bytes>, b: seq<Bytes>)
    requires |a| == |b| && SizeAll(a).Ok? && SizeAll(b).Ok? && SizeAll(a).value == SizeAll(b).value
    ensures a == b
  {
    if a != [] {
      SizedIsPrefixFree(a[0], b[0], SizeAll(a[1..]).value, SizeAll(b[1..]).value);
      SizesDetermineFields(a[1..], b[1..]);
      assert a == [a[0]] + a[1..] && b == [b[0]] + b[1..];
    }
  }

  // ---------------------------------------------------------------- credential snapshots

  datatype Kind = AccessToken | RefreshToken

  datatype Credential = Credential(id: Uuid, userId: Uuid, connectionId: Uuid, kind: Kind, ciphertext: Bytes,
                                   nonce: Bytes, keyVersion: int, expires: Option<Utc>, updated: Utc)

  function KindText(kind: Kind): Bytes {
    if kind == AccessToken then Ascii("access_token") else Ascii("refresh_token")
  }

  function Columns(row: Credential): (values: seq<Option<Bytes>>)
    requires row.keyVersion >= 1
    ensures |values| == 9
  {
    [ Some(KindText(row.kind)),
      Some(UuidText(row.id)),
      Some(UuidText(row.userId)),
      Some(UuidText(row.connectionId)),
      Some(row.ciphertext),
      Some(row.nonce),
      Some(DecimalBytes(row.keyVersion)),
      if row.expires.Some? then Some(UtcText(row.expires.value)) else None,
      Some(UtcText(row.updated)) ]
  }

  function DecimalBytes(n: nat): Bytes {
    var digits := Render(n);
    seq(|digits|, i requires 0 <= i < |digits| => digits[i] as int)
  }

  /** `_row_bytes`. */
  function RowBytes(row: Credential, kind: Kind): Result<Bytes, Rejected> {
    if row.kind != kind || row.keyVersion < 1 then Err(Rejected) else FrameAll(Columns(row))
  }

  const SNAPSHOT_DOMAIN := "AIEMPLOYEE/calendar-aad/credential-snapshot/v1\0"
  const REFRESH_DOMAIN := "AIEMPLOYEE/calendar-aad/refresh-credential-snapshot/v1\0"

  /** `canonical_credential_snapshot_v1`. */
  function SnapshotBytes(access: Credential, refresh: Credential): Result<Bytes, Rejected> {
    if access.userId != refresh.userId || access.connectionId != refresh.connectionId then Err(Rejected)
    else
      var first :- RowBytes(access, AccessToken);
      var second :- RowBytes(refresh, RefreshToken);
      Ok(Ascii(SNAPSHOT_DOMAIN) + first + second)
  }

  /** `canonical_refresh_credential_snapshot_v1`. */
  function RefreshSnapshotBytes(refresh: Credential): Result<Bytes, Rejected> {
    var row :- RowBytes(refresh, RefreshToken);
    Ok(Ascii(REFRESH_DOMAIN) + row)
  }

  lemma DecimalBytesIsInjective(m: nat, n: nat)
    requires DecimalBytes(m) == DecimalBytes(n)
    ensures m == n
  {
    var p, q := Render(m), Render(n);
    assert |p| == |DecimalBytes(m)| && |q| == |DecimalBytes(n)|;
    forall i | 0 <= i < |p|
      ensures p[i] == q[i]
    {
      assert DecimalBytes(m)[i] == p[i] && DecimalBytes(n)[i] == q[i];
    }
    RenderInjective(m, n);
  }

  lemma ColumnsDetermineRow(a: Credential, b: Credential)
    requires a.keyVersion >= 1 && b.keyVersion >= 1 && a.kind == b.kind && Columns(a) == Columns(b)
    ensures a == b
  {
    assert forall i :: 0 <= i < 9 ==> Columns(a)[i] == Columns(b)[i];
    assert Columns(a)[1] == Columns(b)[1] && Columns(a)[2] == Columns(b)[2] && Columns(a)[3] == Columns(b)[3];
    assert Columns(a)[4] == Columns(b)[4] && Columns(a)[5] == Columns(b)[5] && Columns(a)[6] == Columns(b)[6];
    assert Columns(a)[7] == Columns(b)[7] && Columns(a)[8] == Columns(b)[8];
    hide UuidText, UtcText, DecimalBytes;
    UuidTextIsInjective(a.id, b.id);
    UuidTextIsInjective(a.userId, b.userId);
    UuidTextIsInjective(a.connectionId, b.connectionId);
    DecimalBytesIsInjective(a.keyVersion, b.keyVersion);
    if a.expires.Some? && b.expires.Some? {
      UtcTextIsInjective(a.expires.value, b.expires.value);
    }
    UtcTextIsInjective(a.updated, b.updated);
  }

  lemma RowBytesDetermineRow(a: Credential, b: Credential, kind: Kind, after: Bytes, after': Bytes)
    requires RowBytes(a, kind).Ok? && RowBytes(b, kind).Ok?
    requires RowBytes(a, kind).value + after == RowBytes(b, kind).value + after'
    ensures a == b && after == after'
  {
    hide FrameAll, Columns;
    FramesDetermineFields(Columns(a), Columns(b), after, after');
    ColumnsDetermineRow(a, b);
  }

  /** The snapshot bytes determine both rows. */
  lemma SnapshotDeterminesRows(a: Credential, r: Credential, a': Credential, r': Credential)
    requires SnapshotBytes(a, r).Ok? && SnapshotBytes(a, r) == SnapshotBytes(a', r')
    ensures a == a' && r == r'
  {
    hide RowBytes;
    var n := |SNAPSHOT_DOMAIN|;
    var first, second := RowBytes(a, AccessToken).value, RowBytes(r, RefreshToken).value;
    var first', second' := RowBytes(a', AccessToken).value, RowBytes(r', RefreshToken).value;
    assert SnapshotBytes(a, r).value[n..] == first + second;
    assert SnapshotBytes(a', r').value[n..] == first' + second';
    RowBytesDetermineRow(a, a', AccessToken, second, second');
    RowBytesDetermineRow(r, r', RefreshToken, [], []);
  }

  lemma RefreshSnapshotDeterminesRow(r: Credential, r': Credential)
    requires RefreshSnapshotBytes(r).Ok? && RefreshSnapshotBytes(r) == RefreshSnapshotBytes(r')
    ensures r == r'
  {
    hide RowBytes;
    var n := |REFRESH_DOMAIN|;
    assert RefreshSnapshotBytes(r).value[n..] == RowBytes(r, RefreshToken).value;
    assert RefreshSnapshotBytes(r').value[n..] == RowBytes(r', RefreshToken).value;
    RowBytesDetermineRow(r, r', RefreshToken, [], []);
  }

  /** A full snapshot and a refresh-only snapshot never have the same bytes. */
  lemma SnapshotDomainsNeverCollide(a: Credential, r: Credential, r': Credential)
    requires SnapshotBytes(a, r).Ok? && RefreshSnapshotBytes(r').Ok?
    ensures SnapshotBytes(a, r).value != RefreshSnapshotBytes(r').value
  {
    hide RowBytes;
    assert SnapshotBytes(a, r).value[24] == Ascii(SNAPSHOT_DOMAIN)[24];
    assert RefreshSnapshotBytes(r').value[24] == Ascii(REFRESH_DOMAIN)[24];
    assert SNAPSHOT_DOMAIN[24] == 'c' && REFRESH_DOMAIN[24] == 'r';
  }

  // ---------------------------------------------------------------- field contexts

  datatype Field = Description | Location | OtherField

  const V2_DOMAIN := "AIEMPLOYEE/calendar-event-field-aad/v2\0"

  /** The only texts that a parsed UUID prints as. */
  predicate IsUuidText(s: Text) {
    |s| == 36 && forall i :: 0 <= i < 36 ==>
      if i == 8 || i == 13 || i == 18 || i == 23 then s[i] == 45 else IsDigit(s[i]) || 97 <= s[i] <= 102
  }

  predicate IsOpaque(s: Text, maximum: nat) { 1 <= |s| <= maximum && IsScalarText(s) }

  /** `calendar_event_field_aad_v2`. */
  function FieldAad(user: Text, connection: Text, calendar: Text, event: Text, field: Field): Result<Bytes, Rejected> {
    if field == OtherField || !IsUuidText(user) || !IsUuidText(connection)
       || !IsOpaque(calendar, 512) || !IsOpaque(event, 255) then Err(Rejected)
    else
      var frames :- SizeAll(Identity(user, connection, calendar, event, field));
      Ok(Ascii(V2_DOMAIN) + frames)
  }

  /** The five fields as bytes; UUID texts are ASCII, so strict UTF-8 encodes them as themselves. */
  function Identity(user: Text, connection: Text, calendar: Text, event: Text, field: Field): (values: seq<Bytes>)
    requires IsScalarText(user) && IsScalarText(connection) && IsScalarText(calendar) && IsScalarText(event)
    ensures |values| == 5
  {
    [ Utf8.Encode(user), Utf8.Encode(connection), Utf8.Encode(calendar), Utf8.Encode(event),
      if field == Description then Ascii("description") else Ascii("location") ]
  }

  /** Every well-formed identity is accepted: no frame can overflow within the scalar limits. */
  lemma FieldAadAcceptsExactly(user: Text, connection: Text, calendar: Text, event: Text, field: Field)
    ensures FieldAad(user, connection, calendar, event, field).Ok? <==>
      field != OtherField && IsUuidText(user) && IsUuidText(connection) && IsOpaque(calendar, 512) &&
        IsOpaque(event, 255)
  {
    if
      && field != OtherField && IsUuidText(user) && IsUuidText(connection)
      && IsOpaque(calendar, 512) && IsOpaque(event, 255)
    {
      SmallFieldsFit(Identity(user, connection, calendar, event, field));
    }
  }

  lemma {:induction false} SmallFieldsFit(values: seq<Bytes>)
    requires forall i :: 0 <= i < |values| ==> |values[i]| <= MAX_FRAME
    ensures SizeAll(values).Ok?
  {
    if values != [] {
      SmallFieldsFit(values[1..]);
    }
  }

  /** The context bytes determine all five identity fields. */
  lemma FieldAadDeterminesIdentity(u: Text, c: Text, k: Text, e: Text, f: Field, u': Text, c': Text, k': Text,
    e': Text, f': Field)
    requires FieldAad(u, c, k, e, f).Ok? && FieldAad(u, c, k, e, f) == FieldAad(u', c', k', e', f')
    ensures u == u' && c == c' && k == k' && e == e' && f == f'
  {
    hide SizeAll;
    var n := |V2_DOMAIN|;
    var a, b := Identity(u, c, k, e, f), Identity(u', c', k', e', f');
    assert FieldAad(u, c, k, e, f).value[n..] == SizeAll(a).value;
    assert FieldAad(u', c', k', e', f').value[n..] == SizeAll(b).value;
    SizesDetermineFields(a, b);
    assert a[0] == b[0] && a[1] == b[1] && a[2] == b[2] && a[3] == b[3] && a[4] == b[4];
    Utf8.EncodeIsInjective(u, u');
    Utf8.EncodeIsInjective(c, c');
    Utf8.EncodeIsInjective(k, k');
    Utf8.EncodeIsInjective(e, e');
    assert |Ascii("description")| == 11 && |Ascii("location")| == 8;
  }
}
