/** When the TypeScript and the Go builder give an audit_log row one canonical string.

    Text stays clear of the surrogates, so that UTF-16 units and scalar values are the
    same numbers. */
module AuditParity {
  import opened Json
  import opened JsonMeaning
  import opened JsonDialects
  import opened AuditRow
  import opened Wrappers

  // ------------------------------------------------------- the TypeScript builder

  /** Years that do not fit four digits get a sign and six. */
  function IsoYear(year: nat): Text { if year <= 9999 then Decimal(4, year) else [PLUS] + Decimal(6, year) }

  /** A Date knows the time to the millisecond; three zeros stand for the rest. */
  function ToIsoStringMicros(t: Timestamp): Text {
    IsoYear(t.year) + ([DASH] + (Decimal(2, t.month) + ([DASH] + (Decimal(2, t.day) + ([LETTER_T]
    + (Decimal(2, t.hour) + ([COLON] + (Decimal(2, t.minute) + ([COLON] + (Decimal(2, t.second) + ([DOT]
    + (Decimal(3, t.nanos / 1000000) + [ZERO, ZERO, ZERO] + [LETTER_Z]))))))))))))
  }

  /** Throws where the serialiser does. */
  function NullOrJson(v: Value): Result<Text> {
    if v.Null? then Ok(NULL_SENTINEL) else Canonicalize(Ecma, v)
  }

  function EcmaFields(r: AuditLogRow, before: Text, after: Text): (fs: seq<Text>)
    ensures |fs| == 15
  {
    [r.prevHash, Lpad20(r.tenantId), AUDIT_LOG, Lpad20(r.id), ToIsoStringMicros(r.ts), NullOrUint(r.actorUserId),
     r.actorKind, r.action, r.entityType, NullOrStr(r.entityId), before, after,
     NullOrStr(r.requestId), NullOrStr(r.ipAddress), NullOrStr(r.userAgent)]
  }

  function CanonicalAuditLog(r: AuditLogRow): Result<Text> {
    match NullOrJson(r.beforeJson)
    case RangeError => RangeError
    case TypeError => TypeError
    case Ok(before) =>
      match NullOrJson(r.afterJson)
      case RangeError => RangeError
      case TypeError => TypeError
      case Ok(after) => Ok(JoinFields(EcmaFields(r, before, after)))
  }

  // ----------------------------------------------------------------------- times

  lemma {:induction false} DigitsTimesTen(n: nat)
    requires n > 0
    ensures Digits(10 * n) == Digits(n) + [ZERO]
  {
    assert 10 * n / 10 == n && 10 * n % 10 == 0;
  }

  lemma {:induction false} PaddedLonger(width: nat, t: Text)
    ensures Padded(width + 1, t + [ZERO]) == Padded(width, t) + [ZERO]
    decreases width - |t|
  {
    if |t| < width {
      PaddedLonger(width, [ZERO] + t);
      assert [ZERO] + t + [ZERO] == [ZERO] + (t + [ZERO]);
    }
  }

  lemma DecimalTimesTen(width: nat, n: nat)
    requires width > 0
    ensures Decimal(width + 1, 10 * n) == Decimal(width, n) + [ZERO]
  {
    if n > 0 {
      DigitsTimesTen(n);
      PaddedLonger(width, Digits(n));
    } else {
      PaddedLonger(width, []);
      assert [] + [ZERO] == [ZERO] == [ZERO] + [];
    }
  }

  lemma ThreeZeros(ms: nat)
    ensures Decimal(3, ms) + [ZERO, ZERO, ZERO] == Decimal(6, 1000 * ms)
  {
    DecimalTimesTen(3, ms);
    DecimalTimesTen(4, 10 * ms);
    DecimalTimesTen(5, 100 * ms);
    assert Decimal(3, ms) + [ZERO, ZERO, ZERO] == Decimal(3, ms) + [ZERO] + [ZERO] + [ZERO];
  }

  /** The time cut to milliseconds. */
  function Millis(t: Timestamp): Timestamp { t.(nanos := t.nanos / 1000000 * 1000000) }

  lemma CutMicros(nanos: nat)
    ensures nanos / 1000000 * 1000000 / 1000 == 1000 * (nanos / 1000000) <= nanos / 1000
    ensures 1000 * (nanos / 1000000) == nanos / 1000 <==> nanos / 1000 % 1000 == 0
  {}

  lemma EcmaTimeIsCut(t: Timestamp)
    requires t.year <= 9999
    ensures ToIsoStringMicros(t) == IsoMicros(Millis(t))
  {
    ThreeZeros(t.nanos / 1000000);
    CutMicros(t.nanos);
  }

  lemma {:induction false} DigitsLength(m: nat, n: nat)
    requires m <= n
    ensures |Digits(m)| <= |Digits(n)|
  {
    if m >= 10 {
      DigitsLength(m / 10, n / 10);
    }
  }

  lemma {:induction false} PaddedLength(width: nat, t: Text)
    ensures |Padded(width, t)| == if |t| < width then width else |t|
    decreases width - |t|
  {
    if |t| < width {
      PaddedLength(width, [ZERO] + t);
    }
  }

  lemma DecimalLength(width: nat, m: nat, n: nat)
    requires m <= n
    ensures |Decimal(width, m)| <= |Decimal(width, n)|
  {
    DigitsLength(m, n);
    PaddedLength(width, Digits(m));
    PaddedLength(width, Digits(n));
  }

  predicate WholeMillis(t: Timestamp) { t.nanos / 1000 % 1000 == 0 }

  lemma CutExact(t: Timestamp)
    ensures |IsoMicros(Millis(t))| <= |IsoMicros(t)|
    ensures Millis(t).Micros() == t.Micros() <==> WholeMillis(t)
  {
    CutMicros(t.nanos);
    DecimalLength(6, Millis(t).nanos / 1000, t.nanos / 1000);
  }

  lemma TimesAgree(t: Timestamp)
    requires t.year <= 9999
    ensures |ToIsoStringMicros(t)| <= |IsoMicros(t)|
    ensures ToIsoStringMicros(t) == IsoMicros(t) <==> WholeMillis(t)
  {
    EcmaTimeIsCut(t);
    CutExact(t);
    IsoMicrosExact(Millis(t), t);
  }

  // ---------------------------------------------------------------- joined fields

  /** Fields none of which is longer than its counterpart are joined to the same string
      only when all are the same. */
  lemma {:induction false} SameJoin(es: seq<Text>, gs: seq<Text>)
    requires es != [] && |es| == |gs| && forall i :: 0 <= i < |es| ==> |es[i]| <= |gs[i]|
    ensures |JoinFields(es)| <= |JoinFields(gs)|
    ensures JoinFields(es) == JoinFields(gs) ==> es == gs
  {
    if |es| > 1 {
      var m := |es| - 1;
      SameJoin(es[..m], gs[..m]);
      if JoinFields(es) == JoinFields(gs) {
        SameParts(JoinFields(es[..m]), es[m], JoinFields(gs[..m]), gs[m]);
        assert es == es[..m] + [es[m]] && gs == gs[..m] + [gs[m]];
      }
    }
  }

  lemma SameParts(a: Text, b: Text, c: Text, d: Text)
    requires a + [SEP] + b == c + [SEP] + d && |a| <= |c| && |b| <= |d|
    ensures a == c && b == d
  {
    var t := a + [SEP] + b;
    assert |t| == |a| + 1 + |b| == |c| + 1 + |d|;
    assert t[..|a|] == a && t[..|c|] == c && t[|a| + 1..] == b && t[|c| + 1..] == d;
  }

  lemma {:induction false} FieldStartsAt(fs: seq<Text>, k: nat)
    requires 0 < k < |fs| && fs[k] != []
    ensures |JoinFields(fs[..k])| + 1 < |JoinFields(fs)| && JoinFields(fs)[|JoinFields(fs[..k])| + 1] == fs[k][0]
    decreases |fs|
  {
    var m := |fs| - 1;
    if k < m {
      FieldStartsAt(fs[..m], k);
      assert fs[..m][..k] == fs[..k];
    }
  }

  /** A first different field that begins with another character tells two joins apart. */
  lemma DifferentStart(es: seq<Text>, gs: seq<Text>, k: nat)
    requires 0 < k < |es| == |gs| && es[..k] == gs[..k]
    requires es[k] != [] && gs[k] != [] && es[k][0] != gs[k][0]
    ensures JoinFields(es) != JoinFields(gs)
  {
    FieldStartsAt(es, k);
    FieldStartsAt(gs, k);
  }

  // ------------------------------------------------------------------- the rows

  /** Serialised without an error, and without a character that Go escapes. */
  predicate JsonAlike(v: Value) { Serializable(v) && HtmlFree(v) }

  lemma JsonTextsAgree(v: Value)
    requires PlainTexts(v)
    ensures NullOrJson(v).Ok? <==> Serializable(v)
    ensures NullOrJson(v).Ok? ==> |NullOrJson(v).value| <= |JcsJson(v)| && (NullOrJson(v).value == JcsJson(v) <==> HtmlFree(v))
  {
    ThrowsExact(Ecma, v);
    ThrowsExact(GoHtml, v);
    if Serializable(v) {
      CanonicalGrows(v);
    }
  }

  lemma FieldsAgree(r: AuditLogRow, before: Text, after: Text)
    requires |ToIsoStringMicros(r.ts)| <= |IsoMicros(r.ts)|
    requires |before| <= |JcsJson(r.beforeJson)| && |after| <= |JcsJson(r.afterJson)|
    ensures JoinFields(EcmaFields(r, before, after)) == Canonical(r) <==>
            ToIsoStringMicros(r.ts) == IsoMicros(r.ts) && before == JcsJson(r.beforeJson) && after == JcsJson(r.afterJson)
  {
    var es, gs := EcmaFields(r, before, after), Fields(r);
    forall i | 0 <= i < 15 ensures |es[i]| <= |gs[i]| {
    }
    SameJoin(es, gs);
    if es == gs {
      assert es[4] == gs[4] && es[10] == gs[10] && es[11] == gs[11];
    }
  }

  lemma DecimalStarts(width: nat, n: nat, rest: Text)
    ensures Decimal(width, n) != [] && IsDigit((Decimal(width, n) + rest)[0])
  {
    DecimalNumeral(width, n);
    PaddedLength(width, Digits(n));
    assert (Decimal(width, n) + rest)[0] == Decimal(width, n)[0];
  }

  lemma LateYearsDiffer(r: AuditLogRow, before: Text, after: Text)
    requires r.ts.year > 9999
    ensures JoinFields(EcmaFields(r, before, after)) != Canonical(r)
  {
    var es, gs := EcmaFields(r, before, after), Fields(r);
    assert es[..4] == [r.prevHash, Lpad20(r.tenantId), AUDIT_LOG, Lpad20(r.id)] == gs[..4];
    GoTimeStarts(r.ts);
    assert es[4][0] == PLUS;
    DifferentStart(es, gs, 4);
  }

  lemma GoTimeStarts(t: Timestamp)
    ensures IsoMicros(t) != [] && IsDigit(IsoMicros(t)[0])
  {
    DecimalStarts(4, t.year, IsoMicros(t)[|Decimal(4, t.year)|..]);
    assert IsoMicros(t) == Decimal(4, t.year) + IsoMicros(t)[|Decimal(4, t.year)|..];
  }

  /** The two builders give a row the same string exactly when its time is a whole number
      of milliseconds in a year of four digits and its JSON fields serialise without a
      character that Go escapes. */
  lemma RowParityExact(r: AuditLogRow)
    requires PlainTexts(r.beforeJson) && PlainTexts(r.afterJson)
    ensures CanonicalAuditLog(r) == Ok(Canonical(r)) <==>
            r.ts.year <= 9999 && WholeMillis(r.ts) && JsonAlike(r.beforeJson) && JsonAlike(r.afterJson)
  {
    JsonTextsAgree(r.beforeJson);
    JsonTextsAgree(r.afterJson);
    if NullOrJson(r.beforeJson).Ok? && NullOrJson(r.afterJson).Ok? {
      var before, after := NullOrJson(r.beforeJson).value, NullOrJson(r.afterJson).value;
      if r.ts.year <= 9999 {
        TimesAgree(r.ts);
        FieldsAgree(r, before, after);
      } else {
        LateYearsDiffer(r, before, after);
      }
    }
  }
}
