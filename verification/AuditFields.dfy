/** What the canonical string of an audit_log row says: split at the separators it gives
    back the fifteen fields, in order, each in a form that can be read without knowing how
    it was written. */
module AuditFields {
  import opened Json
  import opened JsonReader
  import opened JsonMeaning
  import opened JsonText
  import opened AuditRow
  import opened AuditParity
  import opened Wrappers

  // ---------------------------------------------------------------------- splitting

  /** The stretches between the characters 0x1F. */
  function Split(t: Text): (parts: seq<Text>)
    ensures parts != []
  {
    if t == [] then [[]]
    else
      var m := |t| - 1;
      var parts := Split(t[..m]);
      if t[m] == 0x1F then parts + [[]] else parts[..|parts| - 1] + [parts[|parts| - 1] + [t[m]]]
  }

  lemma {:induction false} SplitPlain(x: Text, f: Text)
    requires HasNoSep(f)
    ensures Split(x + [SEP] + f) == Split(x) + [f]
  {
    var t := x + [SEP] + f;
    if f == [] {
      assert t == x + [SEP] && t[..|t| - 1] == x;
    } else {
      var n := |f| - 1;
      SplitPlain(x, f[..n]);
      assert t[..|t| - 1] == x + [SEP] + f[..n];
      assert f == f[..n] + [f[n]];
    }
  }

  lemma {:induction false} SplitOne(f: Text)
    requires HasNoSep(f)
    ensures Split(f) == [f]
  {
    if f != [] {
      SplitOne(f[..|f| - 1]);
      assert f == f[..|f| - 1] + [f[|f| - 1]];
    }
  }

  predicate NoneHasSep(fs: seq<Text>) {
    forall i :: 0 <= i < |fs| ==> HasNoSep(fs[i])
  }

  lemma JoinedLast(fs: seq<Text>)
    requires |fs| > 1 && NoneHasSep(fs)
    ensures var m := |fs| - 1; NoneHasSep(fs[..m]) && JoinFields(fs) == JoinFields(fs[..m]) + [SEP] + fs[m]
    ensures fs == fs[..|fs| - 1] + [fs[|fs| - 1]]
  {}

  lemma {:induction false} SplitJoined(fs: seq<Text>)
    requires fs != [] && NoneHasSep(fs)
    ensures Split(JoinFields(fs)) == fs
  {
    if |fs| == 1 {
      SplitOne(fs[0]);
    } else {
      var m := |fs| - 1;
      JoinedLast(fs);
      SplitJoined(fs[..m]);
      SplitPlain(JoinFields(fs[..m]), fs[m]);
    }
  }

  // ------------------------------------------------------------------------ numbers

  /** The value of decimal digits. */
  function DecimalValue(t: Text): int {
    if t == [] then 0 else 10 * DecimalValue(t[..|t| - 1]) + (t[|t| - 1] - '0' as int)
  }

  /** A number in decimal digits, with leading zeros to a least width and no others. */
  predicate Writes(t: Text, width: nat, n: nat) {
    && (forall i :: 0 <= i < |t| ==> '0' as int <= t[i] <= '9' as int)
    && DecimalValue(t) == n
    && |t| >= width && (|t| > width ==> |t| == 1 || t[0] != '0' as int)
  }

  lemma {:induction false} DecimalValueIsNumeral(t: Text)
    requires AllDigits(t)
    ensures DecimalValue(t) == Numeral(t)
  {
    if t != [] {
      DecimalValueIsNumeral(t[..|t| - 1]);
    }
  }

  lemma {:induction false} DigitsStart(n: nat)
    ensures n > 0 ==> Digits(n)[0] != ZERO
    ensures n < 10 ==> |Digits(n)| == 1
  {
    if n >= 10 {
      DigitsStart(n / 10);
    }
  }

  lemma {:induction false} PaddedStart(width: nat, t: Text)
    ensures |t| >= width ==> Padded(width, t) == t
    ensures |t| < width ==> |Padded(width, t)| == width
  {
    PaddedLength(width, t);
  }

  lemma DecimalWrites(width: nat, n: nat)
    ensures Writes(Decimal(width, n), width, n)
  {
    DecimalNumeral(width, n);
    DecimalValueIsNumeral(Decimal(width, n));
    DigitsStart(n);
    PaddedStart(width, Digits(n));
  }

  lemma DigitsWrites(n: nat)
    ensures Writes(Digits(n), 1, n)
  {
    DecimalWrites(1, n);
    PaddedStart(1, Digits(n));
  }

  // -------------------------------------------------------------------------- times

  /** The parts of a date and time fit their widths. */
  predicate FitsFormat(t: Timestamp) {
    && t.year <= 9999 && t.month <= 99 && t.day <= 99 && t.hour <= 99 && t.minute <= 99 && t.second <= 99
    && t.nanos <= 999999999
  }

  /** YYYY-MM-DDTHH:MM:SS.ffffffZ. */
  predicate WritesTime(t: Text, ts: Timestamp) {
    && |t| == 27
    && Writes(t[..4], 4, ts.year) && t[4] == '-' as nat
    && Writes(t[5..7], 2, ts.month) && t[7] == '-' as nat
    && Writes(t[8..10], 2, ts.day) && t[10] == 'T' as nat
    && Writes(t[11..13], 2, ts.hour) && t[13] == ':' as nat
    && Writes(t[14..16], 2, ts.minute) && t[16] == ':' as nat
    && Writes(t[17..19], 2, ts.second) && t[19] == '.' as nat
    && Writes(t[20..26], 6, ts.nanos / 1000) && t[26] == 'Z' as nat
  }

  lemma FixedWidth(width: nat, n: nat)
    requires (width == 2 && n <= 99) || (width == 4 && n <= 9999) || (width == 6 && n <= 999999)
    ensures |Decimal(width, n)| == width
  {
    PaddedLength(width, Digits(n));
    if width == 2 {
      DigitsLength(n, 99);
      assert |Digits(9)| == 1 && |Digits(99)| == 2;
    } else if width == 4 {
      DigitsLength(n, 9999);
      NinesLength();
    } else {
      DigitsLength(n, 999999);
      NinesLength();
    }
  }

  lemma NinesLength()
    ensures |Digits(9999)| == 4 && |Digits(999999)| == 6
  {
    assert |Digits(9)| == 1 && |Digits(99)| == 2 && |Digits(999)| == 3;
    assert |Digits(9999)| == 4 && |Digits(99999)| == 5;
  }

  /** A piece of a text from i on, the mark after it and the rest. */
  lemma Piece(t: Text, i: nat, a: Text, mark: nat, rest: Text)
    requires i <= |t| && t[i..] == a + ([mark] + rest)
    ensures i + |a| < |t| && t[i..i + |a|] == a && t[i + |a|] == mark && t[i + |a| + 1..] == rest
  {
    var tail := t[i..];
    assert tail[..|a|] == a && tail[|a|] == mark && tail[|a| + 1..] == rest;
  }

  function AfterYear(ts: Timestamp): Text { Decimal(2, ts.month) + ([DASH] + AfterMonth(ts)) }

  lemma TimeWrites(ts: Timestamp)
    requires FitsFormat(ts)
    ensures WritesTime(IsoMicros(ts), ts)
  {
    var t := IsoMicros(ts);
    assert [LETTER_Z] + [] == [LETTER_Z];
    assert t[0..] == t == Decimal(4, ts.year) + ([DASH] + AfterYear(ts));
    DateWrites(ts, t);
    ClockWrites(ts, t);
  }

  lemma DateWrites(ts: Timestamp, t: Text)
    requires FitsFormat(ts) && t[0..] == Decimal(4, ts.year) + ([DASH] + AfterYear(ts))
    ensures |t| >= 11 && t[11..] == AfterDay(ts)
    ensures Writes(t[..4], 4, ts.year) && t[4] == '-' as nat
    ensures Writes(t[5..7], 2, ts.month) && t[7] == '-' as nat
    ensures Writes(t[8..10], 2, ts.day) && t[10] == 'T' as nat
  {
    FixedWidth(4, ts.year);
    FixedWidth(2, ts.month);
    FixedWidth(2, ts.day);
    Piece(t, 0, Decimal(4, ts.year), DASH, AfterYear(ts));
    Piece(t, 5, Decimal(2, ts.month), DASH, AfterMonth(ts));
    Piece(t, 8, Decimal(2, ts.day), LETTER_T, AfterDay(ts));
    DecimalWrites(4, ts.year);
    DecimalWrites(2, ts.month);
    DecimalWrites(2, ts.day);
  }

  lemma ClockWrites(ts: Timestamp, t: Text)
    requires FitsFormat(ts) && |t| >= 11 && t[11..] == AfterDay(ts)
    ensures |t| == 27
    ensures Writes(t[11..13], 2, ts.hour) && t[13] == ':' as nat
    ensures Writes(t[14..16], 2, ts.minute) && t[16] == ':' as nat
    ensures Writes(t[17..19], 2, ts.second) && t[19] == '.' as nat
    ensures Writes(t[20..26], 6, ts.nanos / 1000) && t[26] == 'Z' as nat
  {
    FixedWidth(2, ts.hour);
    FixedWidth(2, ts.minute);
    FixedWidth(2, ts.second);
    FixedWidth(6, ts.nanos / 1000);
    var micros := Decimal(6, ts.nanos / 1000) + ([LETTER_Z] + []);
    Piece(t, 11, Decimal(2, ts.hour), COLON, Decimal(2, ts.minute) + ([COLON] + AfterMinute(ts)));
    Piece(t, 14, Decimal(2, ts.minute), COLON, AfterMinute(ts));
    Piece(t, 17, Decimal(2, ts.second), DOT, micros);
    Piece(t, 20, Decimal(6, ts.nanos / 1000), LETTER_Z, []);
    DecimalWrites(2, ts.hour);
    DecimalWrites(2, ts.minute);
    DecimalWrites(2, ts.second);
    DecimalWrites(6, ts.nanos / 1000);
  }

  /** A year of more than four digits, as the TypeScript builder writes it. */
  lemma LateYearWrites(year: nat)
    requires year > 9999
    ensures IsoYear(year) != [] && IsoYear(year)[0] == '+' as nat && Writes(IsoYear(year)[1..], 6, year)
  {
    DecimalWrites(6, year);
    assert IsoYear(year)[1..] == Decimal(6, year);
  }

  // ------------------------------------------------------------------------- fields

  /** A backslash and a capital N. */
  predicate IsNullMark(t: Text) { t == ['\\' as nat, 'N' as nat] }

  predicate WritesText(t: Text, o: Option<Text>) { if o.None? then IsNullMark(t) else t == o.value }

  predicate WritesNumber(t: Text, o: Option<nat>) { if o.None? then IsNullMark(t) else Writes(t, 1, o.value) }

  /** A value reads back with its meaning and its keys in order; what cannot be written is
      marked as NULL, and so is null. */
  ghost predicate WritesJson(t: Text, v: Value) {
    if v.Null? || !Serializable(v) then IsNullMark(t)
    else
      var r := ReadValue(t);
      r.Read? && r.rest == [] && Denote(r.value) == Denote(v) && AllKeysAscend(r.value)
  }

  lemma JsonWrites(v: Value)
    requires WellFormed(v)
    ensures WritesJson(JcsJson(v), v)
  {
    ThrowsExact(GoHtml, v);
    if Serializable(v) {
      RoundTrip(GoHtml, v);
      TextKeysAscend(GoHtml, v);
    }
  }

  predicate WritesPlace(prev: Text, tenant: Text, table: Text, id: Text, time: Text, r: AuditLogRow) {
    && prev == r.prevHash
    && Writes(tenant, 20, r.tenantId)
    && table == Chars("audit_log")
    && Writes(id, 20, r.id)
    && WritesTime(time, r.ts)
  }

  predicate WritesDeed(actor: Text, kind: Text, action: Text, entity: Text, entityId: Text, r: AuditLogRow) {
    && WritesNumber(actor, r.actorUserId)
    && kind == r.actorKind && action == r.action && entity == r.entityType
    && WritesText(entityId, r.entityId)
  }

  ghost predicate WritesData(before: Text, after: Text, request: Text, ip: Text, agent: Text, r: AuditLogRow) {
    && WritesJson(before, r.beforeJson) && WritesJson(after, r.afterJson)
    && WritesText(request, r.requestId) && WritesText(ip, r.ipAddress) && WritesText(agent, r.userAgent)
  }

  ghost predicate WritesRow(fs: seq<Text>, r: AuditLogRow) {
    && |fs| == 15
    && WritesPlace(fs[0], fs[1], fs[2], fs[3], fs[4], r)
    && WritesDeed(fs[5], fs[6], fs[7], fs[8], fs[9], r)
    && WritesData(fs[10], fs[11], fs[12], fs[13], fs[14], r)
  }

  lemma NumbersWrite(r: AuditLogRow)
    ensures Writes(Lpad20(r.tenantId), 20, r.tenantId) && Writes(Lpad20(r.id), 20, r.id)
    ensures WritesNumber(NullOrUint(r.actorUserId), r.actorUserId)
  {
    DecimalWrites(20, r.tenantId);
    DecimalWrites(20, r.id);
    if r.actorUserId.Some? {
      DigitsWrites(r.actorUserId.value);
    }
  }

  lemma TextsWrite(o: Option<Text>)
    ensures WritesText(NullOrStr(o), o)
  {}

  lemma PlaceWrites(r: AuditLogRow)
    requires FitsFormat(r.ts)
    ensures WritesPlace(r.prevHash, Lpad20(r.tenantId), AUDIT_LOG, Lpad20(r.id), IsoMicros(r.ts), r)
  {
    NumbersWrite(r);
    TimeWrites(r.ts);
    TableName();
  }

  lemma DeedWrites(r: AuditLogRow)
    ensures WritesDeed(NullOrUint(r.actorUserId), r.actorKind, r.action, r.entityType, NullOrStr(r.entityId), r)
  {
    NumbersWrite(r);
    TextsWrite(r.entityId);
  }

  lemma DataWrites(r: AuditLogRow)
    requires IsGoRow(r)
    ensures WritesData(JcsJson(r.beforeJson), JcsJson(r.afterJson), NullOrStr(r.requestId), NullOrStr(r.ipAddress),
                       NullOrStr(r.userAgent), r)
  {
    JsonWrites(r.beforeJson);
    JsonWrites(r.afterJson);
    TextsWrite(r.requestId);
    TextsWrite(r.ipAddress);
    TextsWrite(r.userAgent);
  }

  lemma FieldsWriteRow(r: AuditLogRow)
    requires IsGoRow(r) && FitsFormat(r.ts)
    ensures WritesRow(Fields(r), r)
  {
    PlaceWrites(r);
    DeedWrites(r);
    DataWrites(r);
    FieldsAt(Fields(r), r);
  }

  lemma FieldsAt(fs: seq<Text>, r: AuditLogRow)
    requires |fs| == 15 && fs == Fields(r)
    ensures fs[0] == r.prevHash && fs[1] == Lpad20(r.tenantId) && fs[2] == AUDIT_LOG && fs[3] == Lpad20(r.id)
    ensures fs[4] == IsoMicros(r.ts) && fs[5] == NullOrUint(r.actorUserId) && fs[6] == r.actorKind
    ensures fs[7] == r.action && fs[8] == r.entityType && fs[9] == NullOrStr(r.entityId)
    ensures fs[10] == JcsJson(r.beforeJson) && fs[11] == JcsJson(r.afterJson)
    ensures fs[12] == NullOrStr(r.requestId) && fs[13] == NullOrStr(r.ipAddress) && fs[14] == NullOrStr(r.userAgent)
  {}

  lemma TableName()
    ensures AUDIT_LOG == Chars("audit_log")
  {}

  /** The string of a row without separators can be read: split at them it gives every
      field in its place. */
  lemma CanonicalReads(r: AuditLogRow)
    requires NoSeps(r) && IsGoRow(r) && FitsFormat(r.ts)
    ensures WritesRow(Split(Canonical(r)), r)
  {
    SepFreeFields(r);
    assert Fields(r)[0] == r.prevHash;
    SplitJoined(Fields(r));
    FieldsWriteRow(r);
  }
}
