/** The canonical string of an audit_log row: what is hashed to give its row hash. */
module AuditRow {
  import opened Json
  import opened JsonReader
  import opened JsonMeaning
  import opened Wrappers

  const SEP: nat := 0x1F

  /** The two characters that stand for NULL. */
  const NULL_SENTINEL: Text := [92, 78]

  // ----------------------------------------------------------------- formatting

  function Digits(n: nat): (t: Text)
    ensures t != []
  {
    if n < 10 then [ZERO + n] else Digits(n / 10) + [ZERO + n % 10]
  }

  function Padded(width: nat, t: Text): (r: Text)
    decreases width - |t|
  {
    if |t| >= width then t else Padded(width, [ZERO] + t)
  }

  function Decimal(width: nat, n: nat): Text { Padded(width, Digits(n)) }

  function Lpad20(n: nat): Text { Decimal(20, n) }

  /** A UTC time; years are not negative. */
  datatype Timestamp = Timestamp(year: nat, month: nat, day: nat, hour: nat, minute: nat, second: nat, nanos: nat) {
    function Micros(): Timestamp { this.(nanos := nanos / 1000) }
  }

  const DASH: nat := 45
  const LETTER_T: nat := 84
  const LETTER_Z: nat := 90

  function IsoMicros(t: Timestamp): Text {
    Decimal(4, t.year) + ([DASH] + (Decimal(2, t.month) + ([DASH] + (Decimal(2, t.day) + ([LETTER_T]
    + (Decimal(2, t.hour) + ([COLON] + (Decimal(2, t.minute) + ([COLON] + (Decimal(2, t.second) + ([DOT]
    + (Decimal(6, t.nanos / 1000) + [LETTER_Z]))))))))))))
  }

  function NullOrStr(o: Option<Text>): Text {
    match o
    case None => NULL_SENTINEL
    case Some(t) => t
  }

  function NullOrUint(o: Option<nat>): Text {
    match o
    case None => NULL_SENTINEL
    case Some(n) => Digits(n)
  }

  /** A nil value, and a value that cannot be marshalled, are both written as NULL. */
  function JcsJson(v: Value): Text {
    if v.Null? then NULL_SENTINEL
    else
      match Canonicalize(GoHtml, v)
      case Ok(t) => t
      case _ => NULL_SENTINEL
  }

  // ----------------------------------------------------------------------- rows

  const AUDIT_LOG: Text := [97, 117, 100, 105, 116, 95, 108, 111, 103]

  datatype AuditLogRow = AuditLogRow(
    prevHash: Text,
    tenantId: nat,
    id: nat,
    ts: Timestamp,
    actorUserId: Option<nat>,
    actorKind: Text,
    action: Text,
    entityType: Text,
    entityId: Option<Text>,
    beforeJson: Value,
    afterJson: Value,
    requestId: Option<Text>,
    ipAddress: Option<Text>,
    userAgent: Option<Text>)

  function Fields(r: AuditLogRow): (fs: seq<Text>)
    ensures |fs| == 15
  {
    [r.prevHash, Lpad20(r.tenantId), AUDIT_LOG, Lpad20(r.id), IsoMicros(r.ts), NullOrUint(r.actorUserId),
     r.actorKind, r.action, r.entityType, NullOrStr(r.entityId), JcsJson(r.beforeJson), JcsJson(r.afterJson),
     NullOrStr(r.requestId), NullOrStr(r.ipAddress), NullOrStr(r.userAgent)]
  }

  function JoinFields(fs: seq<Text>): Text
    requires fs != []
  {
    if |fs| == 1 then fs[0] else JoinFields(fs[..|fs| - 1]) + [SEP] + fs[|fs| - 1]
  }

  function Canonical(r: AuditLogRow): Text { JoinFields(Fields(r)) }

  // ------------------------------------------------------------ decimal numbers

  predicate IsDigit(c: nat) { ZERO <= c <= NINE }

  predicate AllDigits(t: Text) {
    forall i :: 0 <= i < |t| ==> IsDigit(t[i])
  }

  /** The number a digit string stands for; the last digit counts one. */
  function Numeral(t: Text): nat
    requires AllDigits(t)
  {
    if t == [] then 0 else 10 * Numeral(t[..|t| - 1]) + (t[|t| - 1] - ZERO)
  }

  lemma {:induction false} DigitsNumeral(n: nat)
    ensures AllDigits(Digits(n)) && Numeral(Digits(n)) == n
  {
    if n >= 10 {
      DigitsNumeral(n / 10);
      var t := Digits(n);
      assert t[..|t| - 1] == Digits(n / 10);
    } else {
      assert Digits(n)[..0] == [];
    }
  }

  lemma {:induction false} LeadingZero(t: Text)
    requires AllDigits(t)
    ensures AllDigits([ZERO] + t) && Numeral([ZERO] + t) == Numeral(t)
  {
    var u := [ZERO] + t;
    if t == [] {
      assert u[..0] == [];
    } else {
      LeadingZero(t[..|t| - 1]);
      assert u[..|u| - 1] == [ZERO] + t[..|t| - 1];
    }
  }

  lemma {:induction false} PaddedNumeral(width: nat, t: Text)
    requires AllDigits(t)
    ensures AllDigits(Padded(width, t)) && Numeral(Padded(width, t)) == Numeral(t)
    decreases width - |t|
  {
    if |t| < width {
      LeadingZero(t);
      PaddedNumeral(width, [ZERO] + t);
    }
  }

  lemma DecimalNumeral(width: nat, n: nat)
    ensures AllDigits(Decimal(width, n)) && Numeral(Decimal(width, n)) == n
  {
    DigitsNumeral(n);
    PaddedNumeral(width, Digits(n));
  }

  /** Digits up to a non-digit can be split off in one way only. */
  lemma {:induction false} DigitRunUnique(a: Text, x: Text, b: Text, y: Text)
    requires AllDigits(a) && AllDigits(b) && a + x == b + y
    requires x != [] && y != [] && !IsDigit(x[0]) && !IsDigit(y[0])
    ensures a == b && x == y
  {
    var t := a + x;
    assert forall i :: 0 <= i < |a| ==> t[i] == a[i];
    assert forall i :: 0 <= i < |b| ==> t[i] == b[i];
    assert t[|a|] == x[0] && t[|b|] == y[0];
    assert t[..|a|] == a && t[..|b|] == b && t[|a|..] == x && t[|b|..] == y;
  }

  lemma DecimalThen(width: nat, m: nat, n: nat, mark: nat, x: Text, y: Text)
    requires !IsDigit(mark)
    requires Decimal(width, m) + ([mark] + x) == Decimal(width, n) + ([mark] + y)
    ensures m == n && x == y
  {
    DecimalNumeral(width, m);
    DecimalNumeral(width, n);
    DigitRunUnique(Decimal(width, m), [mark] + x, Decimal(width, n), [mark] + y);
    assert ([mark] + x)[1..] == x && ([mark] + y)[1..] == y;
  }

  function AfterMonth(t: Timestamp): Text {
    Decimal(2, t.day) + ([LETTER_T] + AfterDay(t))
  }

  function AfterDay(t: Timestamp): Text {
    Decimal(2, t.hour) + ([COLON] + (Decimal(2, t.minute) + ([COLON] + AfterMinute(t))))
  }

  function AfterMinute(t: Timestamp): Text {
    Decimal(2, t.second) + ([DOT] + (Decimal(6, t.nanos / 1000) + ([LETTER_Z] + [])))
  }

  lemma AfterMinuteInjective(s: Timestamp, t: Timestamp)
    requires AfterMinute(s) == AfterMinute(t)
    ensures s.second == t.second && s.nanos / 1000 == t.nanos / 1000
  {
    DecimalThen(2, s.second, t.second, DOT, Decimal(6, s.nanos / 1000) + ([LETTER_Z] + []),
                Decimal(6, t.nanos / 1000) + ([LETTER_Z] + []));
    DecimalThen(6, s.nanos / 1000, t.nanos / 1000, LETTER_Z, [], []);
  }

  lemma AfterDayInjective(s: Timestamp, t: Timestamp)
    requires AfterDay(s) == AfterDay(t)
    ensures s.hour == t.hour && s.minute == t.minute && AfterMinute(s) == AfterMinute(t)
  {
    DecimalThen(2, s.hour, t.hour, COLON, Decimal(2, s.minute) + ([COLON] + AfterMinute(s)),
                Decimal(2, t.minute) + ([COLON] + AfterMinute(t)));
    DecimalThen(2, s.minute, t.minute, COLON, AfterMinute(s), AfterMinute(t));
  }

  /** The timestamp text determines the time to the microsecond. */
  lemma IsoMicrosExact(s: Timestamp, t: Timestamp)
    ensures IsoMicros(s) == IsoMicros(t) <==> s.Micros() == t.Micros()
  {
    assert [LETTER_Z] + [] == [LETTER_Z];
    assert IsoMicros(s) == Decimal(4, s.year) + ([DASH] + (Decimal(2, s.month) + ([DASH] + AfterMonth(s))));
    assert IsoMicros(t) == Decimal(4, t.year) + ([DASH] + (Decimal(2, t.month) + ([DASH] + AfterMonth(t))));
    if IsoMicros(s) == IsoMicros(t) {
      DecimalThen(4, s.year, t.year, DASH, Decimal(2, s.month) + ([DASH] + AfterMonth(s)),
                  Decimal(2, t.month) + ([DASH] + AfterMonth(t)));
      DecimalThen(2, s.month, t.month, DASH, AfterMonth(s), AfterMonth(t));
      DecimalThen(2, s.day, t.day, LETTER_T, AfterDay(s), AfterDay(t));
      AfterDayInjective(s, t);
      AfterMinuteInjective(s, t);
    }
  }

  // -------------------------------------------------------- splitting the string

  predicate HasNoSep(t: Text) {
    forall i :: 0 <= i < |t| ==> t[i] != SEP
  }

  lemma LastFieldUnique(x: Text, f: Text, y: Text, g: Text)
    requires x + [SEP] + f == y + [SEP] + g && HasNoSep(f) && HasNoSep(g)
    ensures x == y && f == g
  {
    var t := x + [SEP] + f;
    assert forall i :: |x| < i < |t| ==> t[i] == f[i - |x| - 1];
    assert forall i :: |y| < i < |t| ==> t[i] == g[i - |y| - 1];
    assert t[|x|] == SEP && t[|y|] == SEP;
    assert t[..|x|] == x && t[..|y|] == y && t[|x| + 1..] == f && t[|y| + 1..] == g;
  }

  /** A joined string splits in one way when only the first field may hold a
      separator. */
  lemma {:induction false} JoinInjective(fs: seq<Text>, gs: seq<Text>)
    requires |fs| == |gs| > 0 && JoinFields(fs) == JoinFields(gs)
    requires forall i :: 0 < i < |fs| ==> HasNoSep(fs[i]) && HasNoSep(gs[i])
    ensures fs == gs
  {
    var m := |fs| - 1;
    if m > 0 {
      LastFieldUnique(JoinFields(fs[..m]), fs[m], JoinFields(gs[..m]), gs[m]);
      JoinInjective(fs[..m], gs[..m]);
      assert fs == fs[..m] + [fs[m]] && gs == gs[..m] + [gs[m]];
    } else {
      assert fs == [fs[0]] && gs == [gs[0]];
    }
  }

  // ----------------------------------------------------------- counting separators

  function Seps(t: Text): nat {
    if t == [] then 0 else Seps(t[..|t| - 1]) + if t[|t| - 1] == SEP then 1 else 0
  }

  lemma {:induction false} SepsTogether(x: Text, y: Text)
    ensures Seps(x + y) == Seps(x) + Seps(y)
  {
    if y == [] {
      assert x + y == x;
    } else {
      SepsTogether(x, y[..|y| - 1]);
      assert (x + y)[..|x + y| - 1] == x + y[..|y| - 1];
    }
  }

  lemma {:induction false} NoSepsExact(t: Text)
    ensures Seps(t) == 0 <==> HasNoSep(t)
  {
    if t != [] {
      NoSepsExact(t[..|t| - 1]);
      assert t == t[..|t| - 1] + [t[|t| - 1]];
    }
  }

  function TotalSeps(fs: seq<Text>): nat {
    if fs == [] then 0 else TotalSeps(fs[..|fs| - 1]) + Seps(fs[|fs| - 1])
  }

  lemma {:induction false} TotalExact(fs: seq<Text>)
    ensures TotalSeps(fs) == 0 <==> forall i :: 0 <= i < |fs| ==> HasNoSep(fs[i])
  {
    if fs != [] {
      TotalExact(fs[..|fs| - 1]);
      NoSepsExact(fs[|fs| - 1]);
      assert fs == fs[..|fs| - 1] + [fs[|fs| - 1]];
    }
  }

  lemma SepsOfJoint(x: Text, f: Text)
    ensures Seps(x + [SEP] + f) == Seps(x) + 1 + Seps(f)
  {
    SepsTogether(x + [SEP], f);
    SepsTogether(x, [SEP]);
    assert [SEP][..0] == [];
  }

  /** A joined string has the separators of its fields and one between each two. */
  lemma {:induction false} JoinedSeps(fs: seq<Text>)
    requires fs != []
    ensures Seps(JoinFields(fs)) == TotalSeps(fs) + |fs| - 1
  {
    var m := |fs| - 1;
    if m == 0 {
      assert fs[..0] == [];
    } else {
      JoinedSeps(fs[..m]);
      SepsOfJoint(JoinFields(fs[..m]), fs[m]);
    }
  }

  /** One list of fields without separators is enough: whatever joins to the same string
      is the same list. */
  lemma JoinUnique(fs: seq<Text>, gs: seq<Text>)
    requires |fs| == |gs| > 0 && JoinFields(fs) == JoinFields(gs)
    requires forall i :: 0 <= i < |fs| ==> HasNoSep(fs[i])
    ensures fs == gs
  {
    JoinedSeps(fs);
    JoinedSeps(gs);
    TotalExact(fs);
    TotalExact(gs);
    JoinInjective(fs, gs);
  }

  // ------------------------------------------------------------- agreement of rows

  /** No separator in the previous hash or in a text field. */
  predicate NoSeps(r: AuditLogRow) { HasNoSep(r.prevHash) && TextsNoSep(r) }

  predicate TextsNoSep(r: AuditLogRow) {
    && HasNoSep(r.actorKind) && HasNoSep(r.action) && HasNoSep(r.entityType)
    && HasNoSep(NullOrStr(r.entityId)) && HasNoSep(NullOrStr(r.requestId))
    && HasNoSep(NullOrStr(r.ipAddress)) && HasNoSep(NullOrStr(r.userAgent))
  }

  /** Go maps have no repeated key. */
  predicate IsGoRow(r: AuditLogRow) { WellFormed(r.beforeJson) && WellFormed(r.afterJson) }

  /** The meaning of a JSON field: nil and unmarshallable values are not told apart. */
  function FieldMeaning(v: Value): Meaning {
    if Serializable(v) then Denote(v) else MNull
  }

  /** Agreement on every canonical field: time to the microsecond, JSON up to the
      order of keys. */
  predicate SameRow(a: AuditLogRow, b: AuditLogRow) {
    && a.prevHash == b.prevHash && a.tenantId == b.tenantId && a.id == b.id
    && a.ts.Micros() == b.ts.Micros()
    && a.actorUserId == b.actorUserId && a.actorKind == b.actorKind
    && a.action == b.action && a.entityType == b.entityType && a.entityId == b.entityId
    && FieldMeaning(a.beforeJson) == FieldMeaning(b.beforeJson)
    && FieldMeaning(a.afterJson) == FieldMeaning(b.afterJson)
    && a.requestId == b.requestId && a.ipAddress == b.ipAddress && a.userAgent == b.userAgent
  }

  /** The same, but that a NULL text may stand against the text of the NULL mark. */
  predicate SameUpToNull(a: AuditLogRow, b: AuditLogRow) {
    && a.prevHash == b.prevHash && a.tenantId == b.tenantId && a.id == b.id
    && a.ts.Micros() == b.ts.Micros()
    && a.actorUserId == b.actorUserId && a.actorKind == b.actorKind
    && a.action == b.action && a.entityType == b.entityType
    && NullOrStr(a.entityId) == NullOrStr(b.entityId)
    && FieldMeaning(a.beforeJson) == FieldMeaning(b.beforeJson)
    && FieldMeaning(a.afterJson) == FieldMeaning(b.afterJson)
    && NullOrStr(a.requestId) == NullOrStr(b.requestId)
    && NullOrStr(a.ipAddress) == NullOrStr(b.ipAddress)
    && NullOrStr(a.userAgent) == NullOrStr(b.userAgent)
  }

  /** Every nullable text is there, and is not the NULL mark. */
  predicate NoNulls(r: AuditLogRow) {
    Plain(r.entityId) && Plain(r.requestId) && Plain(r.ipAddress) && Plain(r.userAgent)
  }

  predicate Plain(o: Option<Text>) { o.Some? && o.value != NULL_SENTINEL }

  /** No nullable text is the NULL mark. */
  predicate NoMarks(r: AuditLogRow) {
    && r.entityId != Some(NULL_SENTINEL) && r.requestId != Some(NULL_SENTINEL)
    && r.ipAddress != Some(NULL_SENTINEL) && r.userAgent != Some(NULL_SENTINEL)
  }

  /** Rows that agree up to NULL agree where one of them has no NULL text, and where
      neither holds the mark. */
  lemma UpToNullExact(a: AuditLogRow, b: AuditLogRow)
    requires SameUpToNull(a, b)
    ensures NoNulls(a) ==> SameRow(a, b)
    ensures NoMarks(a) && NoMarks(b) ==> SameRow(a, b)
  {}

  lemma CanonicalJsonStart(v: Value)
    requires Canonicalize(GoHtml, v).Ok?
    ensures var t := Canonicalize(GoHtml, v).value; t != [] && t[0] != BACKSLASH
  {
    match v
    case Array(es) =>
    case Object(ms) => ObjectText(GoHtml, v);
    case _ =>
  }

  lemma JcsJsonExact(v: Value, w: Value)
    requires WellFormed(v) && WellFormed(w)
    ensures JcsJson(v) == JcsJson(w) <==> FieldMeaning(v) == FieldMeaning(w)
    ensures HasNoSep(JcsJson(v))
  {
    JcsJsonCases(v);
    JcsJsonCases(w);
    if Serializable(v) && Serializable(w) {
      CanonicalExact(GoHtml, v, w);
    }
  }

  lemma JcsJsonCases(v: Value)
    requires WellFormed(v)
    ensures Serializable(v) ==> Canonicalize(GoHtml, v).Ok?
    ensures HasNoSep(JcsJson(v))
    ensures FieldMeaning(v) == MNull ==> JcsJson(v) == NULL_SENTINEL
    ensures FieldMeaning(v) != MNull ==>
              Serializable(v) && JcsJson(v) == Canonicalize(GoHtml, v).value && JcsJson(v) != NULL_SENTINEL
  {
    ThrowsExact(GoHtml, v);
    if Serializable(v) {
      CanonicalNoControls(GoHtml, v);
      CanonicalJsonStart(v);
    }
  }

  lemma DigitsAreNotNull(n: nat)
    ensures HasNoSep(Digits(n)) && Digits(n) != NULL_SENTINEL
  {
    DigitsNumeral(n);
  }

  lemma NullOrUintExact(a: Option<nat>, b: Option<nat>)
    ensures NullOrUint(a) == NullOrUint(b) <==> a == b
    ensures HasNoSep(NullOrUint(a))
  {
    if a.Some? {
      DigitsAreNotNull(a.value);
      DigitsNumeral(a.value);
    }
    if b.Some? {
      DigitsAreNotNull(b.value);
      DigitsNumeral(b.value);
    }
  }

  lemma DecimalHasNoSep(width: nat, n: nat)
    ensures HasNoSep(Decimal(width, n))
  {
    DecimalNumeral(width, n);
  }

  lemma IsoMicrosHasNoSep(t: Timestamp)
    ensures HasNoSep(IsoMicros(t))
  {
    DecimalHasNoSep(4, t.year);
    DecimalHasNoSep(2, t.month);
    DecimalHasNoSep(2, t.day);
    DecimalHasNoSep(2, t.hour);
    DecimalHasNoSep(2, t.minute);
    DecimalHasNoSep(2, t.second);
    DecimalHasNoSep(6, t.nanos / 1000);
  }

  lemma SepFreeFields(r: AuditLogRow)
    requires TextsNoSep(r) && IsGoRow(r)
    ensures forall i :: 0 < i < 15 ==> HasNoSep(Fields(r)[i])
  {
    DecimalHasNoSep(20, r.tenantId);
    DecimalHasNoSep(20, r.id);
    IsoMicrosHasNoSep(r.ts);
    NullOrUintExact(r.actorUserId, None);
    JcsJsonCases(r.beforeJson);
    JcsJsonCases(r.afterJson);
    FieldsNoSep(Fields(r), r);
  }

  lemma FieldsNoSep(f: seq<Text>, r: AuditLogRow)
    requires f == Fields(r)
    requires HasNoSep(Lpad20(r.tenantId)) && HasNoSep(Lpad20(r.id)) && HasNoSep(IsoMicros(r.ts))
    requires HasNoSep(NullOrUint(r.actorUserId)) && HasNoSep(JcsJson(r.beforeJson)) && HasNoSep(JcsJson(r.afterJson))
    requires HasNoSep(r.actorKind) && HasNoSep(r.action) && HasNoSep(r.entityType)
    requires HasNoSep(NullOrStr(r.entityId)) && HasNoSep(NullOrStr(r.requestId))
    requires HasNoSep(NullOrStr(r.ipAddress)) && HasNoSep(NullOrStr(r.userAgent))
    ensures forall i :: 0 < i < 15 ==> HasNoSep(f[i])
  {
    assert HasNoSep(AUDIT_LOG);
  }

  lemma FieldsByParts(a: AuditLogRow, b: AuditLogRow)
    ensures Fields(a) == Fields(b) <==>
              && a.prevHash == b.prevHash && Lpad20(a.tenantId) == Lpad20(b.tenantId) && Lpad20(a.id) == Lpad20(b.id)
              && IsoMicros(a.ts) == IsoMicros(b.ts) && NullOrUint(a.actorUserId) == NullOrUint(b.actorUserId)
              && a.actorKind == b.actorKind && a.action == b.action && a.entityType == b.entityType
              && NullOrStr(a.entityId) == NullOrStr(b.entityId)
              && JcsJson(a.beforeJson) == JcsJson(b.beforeJson) && JcsJson(a.afterJson) == JcsJson(b.afterJson)
              && NullOrStr(a.requestId) == NullOrStr(b.requestId)
              && NullOrStr(a.ipAddress) == NullOrStr(b.ipAddress) && NullOrStr(a.userAgent) == NullOrStr(b.userAgent)
  {
    var f, g := Fields(a), Fields(b);
    if f == g {
      assert f[0] == g[0] && f[1] == g[1] && f[3] == g[3] && f[4] == g[4] && f[5] == g[5];
      assert f[6] == g[6] && f[7] == g[7] && f[8] == g[8] && f[9] == g[9] && f[10] == g[10] && f[11] == g[11];
      assert f[12] == g[12] && f[13] == g[13] && f[14] == g[14];
    }
  }

  lemma Lpad20Exact(m: nat, n: nat)
    ensures Lpad20(m) == Lpad20(n) <==> m == n
  {
    DecimalNumeral(20, m);
    DecimalNumeral(20, n);
  }

  lemma FieldsExact(a: AuditLogRow, b: AuditLogRow)
    requires IsGoRow(a) && IsGoRow(b)
    ensures Fields(a) == Fields(b) <==> SameUpToNull(a, b)
  {
    FieldsByParts(a, b);
    Lpad20Exact(a.tenantId, b.tenantId);
    Lpad20Exact(a.id, b.id);
    IsoMicrosExact(a.ts, b.ts);
    NullOrUintExact(a.actorUserId, b.actorUserId);
    JcsJsonExact(a.beforeJson, b.beforeJson);
    JcsJsonExact(a.afterJson, b.afterJson);
  }

  /** A row without separators shares its canonical string with exactly the rows that
      agree with it on every field, up to NULL against its mark - whatever those rows
      hold. */
  lemma CanonicalInjective(a: AuditLogRow, b: AuditLogRow)
    requires NoSeps(a) && IsGoRow(a) && IsGoRow(b)
    ensures Canonical(a) == Canonical(b) <==> SameUpToNull(a, b)
  {
    FieldsExact(a, b);
    SepFreeFields(a);
    if Canonical(a) == Canonical(b) {
      assert Fields(a)[0] == a.prevHash;
      JoinUnique(Fields(a), Fields(b));
    }
  }

  /** Of two rows whose texts have no separators, the previous hashes may have some. */
  lemma SepFreeTextsInjective(a: AuditLogRow, b: AuditLogRow)
    requires TextsNoSep(a) && TextsNoSep(b) && IsGoRow(a) && IsGoRow(b)
    ensures Canonical(a) == Canonical(b) <==> SameUpToNull(a, b)
  {
    FieldsExact(a, b);
    SepFreeFields(a);
    SepFreeFields(b);
    if Canonical(a) == Canonical(b) {
      JoinInjective(Fields(a), Fields(b));
    }
  }
}
