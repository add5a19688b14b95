/** Which audit rows share their canonical string with a different row: a separator in a
    text, or a NULL text, gives a row its twin. */
module AuditTwins {
  import opened Json
  import opened AuditRow
  import opened Wrappers

  // ------------------------------------------------------------------- text fields

  /** The places of the text fields in the canonical string. */
  predicate IsSlot(i: nat) { 6 <= i <= 9 || 12 <= i <= 14 }

  predicate IsNullable(i: nat) { i == 9 || 12 <= i <= 14 }

  function Slot(r: AuditLogRow, i: nat): Option<Text>
    requires IsSlot(i)
  {
    match i
    case 6 => Some(r.actorKind)
    case 7 => Some(r.action)
    case 8 => Some(r.entityType)
    case 9 => r.entityId
    case 12 => r.requestId
    case 13 => r.ipAddress
    case _ => r.userAgent
  }

  function WithSlot(r: AuditLogRow, i: nat, o: Option<Text>): AuditLogRow
    requires IsSlot(i) && (IsNullable(i) || o.Some?)
  {
    match i
    case 6 => r.(actorKind := o.value)
    case 7 => r.(action := o.value)
    case 8 => r.(entityType := o.value)
    case 9 => r.(entityId := o)
    case 12 => r.(requestId := o)
    case 13 => r.(ipAddress := o)
    case _ => r.(userAgent := o)
  }

  lemma SlotIsField(r: AuditLogRow, i: nat)
    requires IsSlot(i)
    ensures Fields(r)[i] == NullOrStr(Slot(r, i))
  {}

  lemma WithNameFields(r: AuditLogRow, t: Text)
    ensures Fields(r.(actorKind := t)) == Fields(r)[6 := t]
    ensures Fields(r.(action := t)) == Fields(r)[7 := t]
    ensures Fields(r.(entityType := t)) == Fields(r)[8 := t]
  {}

  lemma WithOptionFields(r: AuditLogRow, o: Option<Text>)
    ensures Fields(r.(entityId := o)) == Fields(r)[9 := NullOrStr(o)]
    ensures Fields(r.(requestId := o)) == Fields(r)[12 := NullOrStr(o)]
    ensures Fields(r.(ipAddress := o)) == Fields(r)[13 := NullOrStr(o)]
    ensures Fields(r.(userAgent := o)) == Fields(r)[14 := NullOrStr(o)]
  {}

  lemma WithSlotFields(r: AuditLogRow, i: nat, o: Option<Text>)
    requires IsSlot(i) && (IsNullable(i) || o.Some?)
    ensures Fields(WithSlot(r, i, o)) == Fields(r)[i := NullOrStr(o)]
  {
    if IsNullable(i) {
      WithOptionFields(r, o);
    } else {
      WithNameFields(r, o.value);
    }
  }

  lemma SlotsTellRowsApart(a: AuditLogRow, b: AuditLogRow, i: nat)
    requires IsSlot(i) && Slot(a, i) != Slot(b, i)
    ensures !SameRow(a, b)
  {}

  // ----------------------------------------------------------------------- splitting

  function SepIndex(t: Text): (i: nat)
    requires !HasNoSep(t)
    ensures i < |t| && t[i] == SEP
  {
    if t[0] == SEP then 0
    else
      assert t == [t[0]] + t[1..];
      1 + SepIndex(t[1..])
  }

  function BeforeSep(t: Text): Text
    requires !HasNoSep(t)
  {
    t[..SepIndex(t)]
  }

  function AfterSep(t: Text): Text
    requires !HasNoSep(t)
  {
    t[SepIndex(t) + 1..]
  }

  function Glue(a: Text, b: Text): Text { a + [SEP] + b }

  lemma SepSplits(t: Text)
    requires !HasNoSep(t)
    ensures Glue(BeforeSep(t), AfterSep(t)) == t
    ensures |BeforeSep(t)| < |t| && |AfterSep(t)| < |t|
  {}

  lemma GlueAssociative(a: Text, b: Text, c: Text)
    ensures Glue(Glue(a, b), c) == Glue(a, Glue(b, c))
  {}

  /** Moving a separator between neighbours does not change the joined string. */
  lemma {:induction false} JoinShift(fs: seq<Text>, i: nat, x: Text, y: Text)
    requires i + 1 < |fs| && Glue(fs[i], fs[i + 1]) == Glue(x, y)
    ensures JoinFields(fs[i := x][i + 1 := y]) == JoinFields(fs)
  {
    var m, gs := |fs| - 1, fs[i := x][i + 1 := y];
    if i + 1 < m {
      JoinShift(fs[..m], i, x, y);
      assert gs[..m] == fs[..m][i := x][i + 1 := y];
    } else if i == 0 {
      assert fs[..1] == [fs[0]] && gs[..1] == [x];
    } else {
      assert fs[..m][..i] == fs[..i] == gs[..i] == gs[..m][..i];
      var before := JoinFields(fs[..i]) + [SEP];
      assert JoinFields(fs) == before + Glue(fs[i], fs[i + 1]);
      assert JoinFields(gs) == before + Glue(x, y);
    }
  }

  // ---------------------------------------------------------------------------- twins

  /** A different row with the same canonical string, and the same id, previous hash and
      JSON. */
  predicate IsTwin(r: AuditLogRow, b: AuditLogRow) {
    && !SameRow(r, b) && Canonical(b) == Canonical(r)
    && b.id == r.id && b.prevHash == r.prevHash
    && b.beforeJson == r.beforeJson && b.afterJson == r.afterJson
  }

  /** The neighbour that takes the part of a text beyond its separator. */
  function Partner(i: nat): nat
    requires IsSlot(i)
  {
    if i == 6 || i == 12 then i + 1 else i - 1
  }

  /** A row whose text at i holds a separator, with the separator moved to the border
      between that text and its neighbour. */
  function SepTwin(r: AuditLogRow, i: nat): AuditLogRow
    requires IsSlot(i) && !HasNoSep(NullOrStr(Slot(r, i)))
  {
    var t, u := NullOrStr(Slot(r, i)), NullOrStr(Slot(r, Partner(i)));
    if Partner(i) > i then WithSlot(WithSlot(r, i, Some(BeforeSep(t))), i + 1, Some(Glue(AfterSep(t), u)))
    else WithSlot(WithSlot(r, i - 1, Some(Glue(u, BeforeSep(t)))), i, Some(AfterSep(t)))
  }

  lemma SepTwinCollides(r: AuditLogRow, i: nat)
    requires IsSlot(i) && !HasNoSep(NullOrStr(Slot(r, i)))
    ensures IsTwin(r, SepTwin(r, i))
  {
    var t, u := NullOrStr(Slot(r, i)), NullOrStr(Slot(r, Partner(i)));
    SepSplits(t);
    SlotIsField(r, i);
    SlotIsField(r, Partner(i));
    SlotsTellRowsApart(r, SepTwin(r, i), i);
    if Partner(i) > i {
      GlueAssociative(BeforeSep(t), AfterSep(t), u);
      Moved(r, i, BeforeSep(t), Glue(AfterSep(t), u));
    } else {
      GlueAssociative(u, BeforeSep(t), AfterSep(t));
      Moved(r, i - 1, Glue(u, BeforeSep(t)), AfterSep(t));
    }
  }

  lemma Moved(r: AuditLogRow, i: nat, x: Text, y: Text)
    requires IsSlot(i) && IsSlot(i + 1) && Glue(Fields(r)[i], Fields(r)[i + 1]) == Glue(x, y)
    ensures Canonical(WithSlot(WithSlot(r, i, Some(x)), i + 1, Some(y))) == Canonical(r)
  {
    WithSlotFields(r, i, Some(x));
    WithSlotFields(WithSlot(r, i, Some(x)), i + 1, Some(y));
    JoinShift(Fields(r), i, x, y);
  }

  /** A NULL written as its mark, and the mark as NULL. */
  function NullTwin(r: AuditLogRow, i: nat): AuditLogRow
    requires IsNullable(i)
  {
    WithSlot(r, i, if Slot(r, i) == None then Some(NULL_SENTINEL) else None)
  }

  lemma NullTwinCollides(r: AuditLogRow, i: nat)
    requires IsNullable(i) && !Plain(Slot(r, i))
    ensures IsTwin(r, NullTwin(r, i))
  {
    var o := if Slot(r, i) == None then Some(NULL_SENTINEL) else None;
    SlotIsField(r, i);
    WithSlotFields(r, i, o);
    SlotsTellRowsApart(r, NullTwin(r, i), i);
    assert Fields(r)[i := Fields(r)[i]] == Fields(r);
  }

  // ------------------------------------------------------------------- main result

  /** No row but those that agree with it on every field has this row's string. */
  ghost predicate Unambiguous(r: AuditLogRow) {
    forall b: AuditLogRow :: IsGoRow(b) && Canonical(b) == Canonical(r) ==> SameRow(r, b)
  }

  /** The first text field that holds a separator. */
  lemma SeparatorSlot(r: AuditLogRow) returns (i: nat)
    requires !TextsNoSep(r)
    ensures IsSlot(i) && !HasNoSep(NullOrStr(Slot(r, i)))
  {
    i :=
      if !HasNoSep(r.actorKind) then 6
      else if !HasNoSep(r.action) then 7
      else if !HasNoSep(r.entityType) then 8
      else if !HasNoSep(NullOrStr(r.entityId)) then 9
      else if !HasNoSep(NullOrStr(r.requestId)) then 12
      else if !HasNoSep(NullOrStr(r.ipAddress)) then 13
      else 14;
  }

  /** The first nullable text that is NULL or its mark. */
  lemma NullSlot(r: AuditLogRow) returns (i: nat)
    requires !NoNulls(r)
    ensures IsNullable(i) && !Plain(Slot(r, i))
  {
    i := if !Plain(r.entityId) then 9 else if !Plain(r.requestId) then 12 else if !Plain(r.ipAddress) then 13 else 14;
  }

  lemma TwinIsAmbiguous(r: AuditLogRow, b: AuditLogRow)
    requires IsGoRow(r) && IsTwin(r, b)
    ensures !Unambiguous(r)
  {
    assert IsGoRow(b);
  }

  lemma SepsAmbiguous(r: AuditLogRow)
    requires IsGoRow(r) && !TextsNoSep(r)
    ensures !Unambiguous(r)
  {
    var i := SeparatorSlot(r);
    SepTwinCollides(r, i);
    TwinIsAmbiguous(r, SepTwin(r, i));
  }

  lemma NullsAmbiguous(r: AuditLogRow)
    requires IsGoRow(r) && !NoNulls(r)
    ensures !Unambiguous(r)
  {
    var i := NullSlot(r);
    NullTwinCollides(r, i);
    TwinIsAmbiguous(r, NullTwin(r, i));
  }

  lemma StringFixesRow(r: AuditLogRow, b: AuditLogRow)
    requires NoSeps(r) && NoNulls(r) && IsGoRow(r) && IsGoRow(b) && Canonical(b) == Canonical(r)
    ensures SameRow(r, b)
  {
    CanonicalInjective(r, b);
    UpToNullExact(r, b);
  }

  /** Exactly the rows without separators and without NULL texts are told apart from all
      others by their canonical string; every other row has a twin. */
  lemma UnambiguousExact(r: AuditLogRow)
    requires HasNoSep(r.prevHash) && IsGoRow(r)
    ensures Unambiguous(r) <==> TextsNoSep(r) && NoNulls(r)
  {
    if !TextsNoSep(r) {
      SepsAmbiguous(r);
    } else if !NoNulls(r) {
      NullsAmbiguous(r);
    } else {
      forall b: AuditLogRow | IsGoRow(b) && Canonical(b) == Canonical(r) ensures SameRow(r, b) {
        StringFixesRow(r, b);
      }
    }
  }
}
