/** What a canonical JSON text determines: the value it was made from, with objects
    read as maps, and nothing else. */
module JsonMeaning {
  import opened Json
  import opened JsonReader

  /** A JSON value with objects as maps. */
  datatype Meaning =
    | MNull
    | MBool(b: bool)
    | MNumber(literal: NumberLiteral)
    | MString(s: Text)
    | MArray(elems: seq<Meaning>)
    | MObject(members: map<Text, Meaning>)
    | MThrows(range: bool)

  function Denote(v: Value): Meaning
    decreases v
  {
    match v
    case Null => MNull
    case Bool(b) => MBool(b)
    case Number(literal) => MNumber(literal)
    case String(s) => MString(s)
    case Array(es) => MArray(seq(|es|, i requires 0 <= i < |es| => Denote(es[i])))
    case Object(ms) => MObject(DenoteMembers(ms))
    case NonFinite => MThrows(true)
    case Unsupported => MThrows(false)
  }

  function DenoteMembers(ms: seq<Member>): (r: map<Text, Meaning>)
    ensures forall k :: k in r ==> exists i :: 0 <= i < |ms| && ms[i].key == k
    decreases ms
  {
    if ms == [] then map[]
    else
      assert forall i :: 0 <= i < |ms[1..]| ==> ms[1..][i] == ms[i + 1];
      DenoteMembers(ms[1..])[ms[0].key := Denote(ms[0].value)]
  }

  predicate DistinctKeys(ms: seq<Member>) {
    forall i, j :: 0 <= i < j < |ms| ==> ms[i].key != ms[j].key
  }

  /** No object has a key twice, as in any JavaScript object or Go map. */
  predicate WellFormed(v: Value)
    decreases v
  {
    match v
    case Array(es) => forall e :: e in es ==> WellFormed(e)
    case Object(ms) => DistinctKeys(ms) && forall m :: m in ms ==> WellFormed(m.value)
    case _ => true
  }

  // ---------------------------------------------------------- sorted member lists

  lemma {:induction false} BeforeTotal(a: Text, b: Text)
    ensures a == b || Before(a, b) || Before(b, a)
    ensures !(Before(a, b) && Before(b, a)) && !Before(a, a)
    decreases |a|
  {
    if a != [] && b != [] && a[0] == b[0] {
      BeforeTotal(a[1..], b[1..]);
      assert a == [a[0]] + a[1..] && b == [b[0]] + b[1..];
    }
    if a != [] {
      IrreflexiveBefore(a);
    }
  }

  lemma {:induction false} IrreflexiveBefore(a: Text)
    ensures !Before(a, a)
  {
    if a != [] {
      IrreflexiveBefore(a[1..]);
    }
  }

  lemma {:induction false} BeforeTransitive(a: Text, b: Text, c: Text)
    requires Before(a, b) && Before(b, c)
    ensures Before(a, c)
    decreases |a|
  {
    if a != [] && a[0] == b[0] == c[0] {
      BeforeTransitive(a[1..], b[1..], c[1..]);
    }
  }

  predicate StrictlySorted(ms: seq<Member>) {
    forall i, j :: 0 <= i < j < |ms| ==> Before(ms[i].key, ms[j].key)
  }

  lemma InsertMembers(m: Member, ms: seq<Member>)
    ensures forall x :: x in Insert(m, ms) <==> x == m || x in ms
  {
    assert forall x :: x in Insert(m, ms) <==> x in multiset(ms) + multiset{m};
  }

  lemma {:induction false} InsertSorts(m: Member, ms: seq<Member>)
    requires StrictlySorted(ms) && forall i :: 0 <= i < |ms| ==> ms[i].key != m.key
    ensures StrictlySorted(Insert(m, ms))
  {
    if ms != [] {
      BeforeTotal(ms[0].key, m.key);
      if Before(ms[0].key, m.key) {
        var rest := Insert(m, ms[1..]);
        InsertSorts(m, ms[1..]);
        InsertMembers(m, ms[1..]);
        forall j | 0 <= j < |rest| ensures Before(ms[0].key, rest[j].key) {
          assert rest[j] in rest;
        }
      } else {
        forall j | 0 <= j < |ms| ensures Before(m.key, ms[j].key) {
          if j > 0 {
            BeforeTransitive(m.key, ms[0].key, ms[j].key);
          }
        }
      }
    }
  }

  lemma {:induction false} SortSorts(ms: seq<Member>)
    requires DistinctKeys(ms)
    ensures StrictlySorted(Sort(ms))
  {
    if ms != [] {
      SortSorts(ms[1..]);
      SortedFrom(ms[1..]);
      var rest := Sort(ms[1..]);
      forall i | 0 <= i < |rest| ensures rest[i].key != ms[0].key {
        assert rest[i] in ms[1..];
      }
      InsertSorts(ms[0], rest);
    }
  }

  lemma SortedIsDistinct(ms: seq<Member>)
    requires StrictlySorted(ms)
    ensures DistinctKeys(ms)
  {
    forall i, j | 0 <= i < j < |ms| ensures ms[i].key != ms[j].key {
      IrreflexiveBefore(ms[i].key);
    }
  }

  lemma {:induction false} Lookup(ms: seq<Member>, i: nat)
    requires DistinctKeys(ms) && i < |ms|
    ensures ms[i].key in DenoteMembers(ms) && DenoteMembers(ms)[ms[i].key] == Denote(ms[i].value)
  {
    if i > 0 {
      Lookup(ms[1..], i - 1);
    }
  }

  ghost predicate HasKey(ms: seq<Member>, k: Text) {
    exists i :: 0 <= i < |ms| && ms[i].key == k
  }

  ghost predicate KeysWithin(a: seq<Member>, b: seq<Member>) {
    forall i :: 0 <= i < |a| ==> HasKey(b, a[i].key)
  }

  ghost predicate HasMember(ms: seq<Member>, k: Text, x: Meaning) {
    exists i :: 0 <= i < |ms| && ms[i].key == k && Denote(ms[i].value) == x
  }

  ghost predicate MembersWithin(a: seq<Member>, b: seq<Member>) {
    forall i :: 0 <= i < |a| ==> HasMember(b, a[i].key, Denote(a[i].value))
  }

  /** Lists with the same members denote the same map. */
  lemma SameMembersSameMap(a: seq<Member>, b: seq<Member>)
    requires DistinctKeys(a) && DistinctKeys(b) && MembersWithin(a, b) && KeysWithin(b, a)
    ensures DenoteMembers(a) == DenoteMembers(b)
  {
    forall k | k in DenoteMembers(a) ensures k in DenoteMembers(b) && DenoteMembers(b)[k] == DenoteMembers(a)[k] {
      var i :| 0 <= i < |a| && a[i].key == k;
      assert HasMember(b, a[i].key, Denote(a[i].value));
      var j :| 0 <= j < |b| && b[j].key == k && Denote(b[j].value) == Denote(a[i].value);
      Lookup(a, i);
      Lookup(b, j);
    }
    forall k | k in DenoteMembers(b) ensures k in DenoteMembers(a) {
      var j :| 0 <= j < |b| && b[j].key == k;
      assert HasKey(a, b[j].key);
      var i :| 0 <= i < |a| && a[i].key == k;
      Lookup(a, i);
    }
  }

  // ---------------------------------------------------------- order does not matter

  lemma {:induction false} NormalizeKeepsMeaning(v: Value)
    requires WellFormed(v)
    ensures Denote(Normalize(v)) == Denote(v)
    decreases v
  {
    match v
    case Array(es) =>
      forall i | 0 <= i < |es| ensures Denote(Normalize(es[i])) == Denote(es[i]) {
        NormalizeKeepsMeaning(es[i]);
      }
    case Object(ms) =>
      forall m | m in ms ensures Denote(Normalize(m.value)) == Denote(m.value) {
        NormalizeKeepsMeaning(m.value);
      }
      NormalMembersSameMap(v);
    case _ =>
  }

  lemma NormalMembersSameMap(v: Value)
    requires v.Object? && WellFormed(v)
    requires forall m :: m in v.members ==> Denote(Normalize(m.value)) == Denote(m.value)
    ensures Denote(Normalize(v)) == Denote(v)
  {
    ObjectText(Ecma, v);
    SortKeepsMap(v.members);
    SortedFrom(v.members);
    NormalKeepsMap(Sort(v.members));
  }

  lemma {:induction false} NormalKeepsMap(ms: seq<Member>)
    requires forall m :: m in ms ==> Denote(Normalize(m.value)) == Denote(m.value)
    ensures DenoteMembers(NormalizeMembers(ms)) == DenoteMembers(ms)
  {
    if ms != [] {
      NormalKeepsMap(ms[1..]);
      assert NormalizeMembers(ms)[1..] == NormalizeMembers(ms[1..]);
      assert ms[0] in ms;
    }
  }

  lemma SortKeepsMap(ms: seq<Member>)
    requires DistinctKeys(ms)
    ensures DenoteMembers(Sort(ms)) == DenoteMembers(ms)
    ensures StrictlySorted(Sort(ms)) && DistinctKeys(Sort(ms))
  {
    var sorted := Sort(ms);
    SortSorts(ms);
    SortedIsDistinct(sorted);
    SortedFrom(ms);
    forall i | 0 <= i < |sorted| ensures HasMember(ms, sorted[i].key, Denote(sorted[i].value)) {
      assert sorted[i] in ms;
    }
    forall j | 0 <= j < |ms| ensures HasKey(sorted, ms[j].key) {
      assert ms[j] in sorted;
    }
    SameMembersSameMap(sorted, ms);
  }

  /** Sorted lists with the same keys have them in the same places. */
  lemma {:induction false} SortedKeysAgree(a: seq<Member>, b: seq<Member>)
    requires StrictlySorted(a) && StrictlySorted(b) && KeysWithin(a, b) && KeysWithin(b, a)
    ensures |a| == |b| && forall i :: 0 <= i < |a| ==> a[i].key == b[i].key
    decreases |a|
  {
    assert a != [] ==> HasKey(b, a[0].key);
    assert b != [] ==> HasKey(a, b[0].key);
    if a != [] && b != [] {
      FirstKeysAgree(a, b);
      TailKeys(a, b);
      TailKeys(b, a);
      SortedKeysAgree(a[1..], b[1..]);
      forall i | 0 <= i < |a| ensures a[i].key == b[i].key {
        if i > 0 {
          assert a[1..][i - 1].key == b[1..][i - 1].key;
        }
      }
    }
  }

  lemma FirstKeysAgree(a: seq<Member>, b: seq<Member>)
    requires StrictlySorted(a) && StrictlySorted(b) && a != [] && b != []
    requires KeysWithin(a, b) && KeysWithin(b, a)
    ensures a[0].key == b[0].key
  {
    assert HasKey(b, a[0].key) && HasKey(a, b[0].key);
    var j :| 0 <= j < |b| && b[j].key == a[0].key;
    var i :| 0 <= i < |a| && a[i].key == b[0].key;
    BeforeTotal(a[0].key, b[0].key);
  }

  lemma TailKeys(a: seq<Member>, b: seq<Member>)
    requires StrictlySorted(a) && a != [] && b != [] && a[0].key == b[0].key
    requires KeysWithin(a, b)
    ensures KeysWithin(a[1..], b[1..])
  {
    forall i | 0 <= i < |a[1..]| ensures HasKey(b[1..], a[1..][i].key) {
      assert HasKey(b, a[i + 1].key);
      var j :| 0 <= j < |b| && b[j].key == a[i + 1].key;
      IrreflexiveBefore(a[0].key);
      assert Before(a[0].key, a[i + 1].key);
      assert b[1..][j - 1] == b[j];
    }
  }

  lemma {:induction false} SameMeaningSameNormal(a: Value, b: Value)
    requires WellFormed(a) && WellFormed(b) && Denote(a) == Denote(b)
    ensures Normalize(a) == Normalize(b)
    decreases a
  {
    match a
    case Array(es) =>
      forall i | 0 <= i < |es| ensures Normalize(es[i]) == Normalize(b.elems[i]) {
        assert Denote(a).elems[i] == Denote(b).elems[i];
        SameMeaningSameNormal(es[i], b.elems[i]);
      }
    case Object(ms) =>
      forall m, n | m in ms && n in b.members && Denote(m.value) == Denote(n.value)
        ensures Normalize(m.value) == Normalize(n.value)
      {
        SameMeaningSameNormal(m.value, n.value);
      }
      SameMapSameNormal(a, b);
    case _ =>
  }

  lemma SameMapSameNormal(a: Value, b: Value)
    requires a.Object? && b.Object? && WellFormed(a) && WellFormed(b) && Denote(a) == Denote(b)
    requires forall m, n :: m in a.members && n in b.members && Denote(m.value) == Denote(n.value) ==>
               Normalize(m.value) == Normalize(n.value)
    ensures Normalize(a) == Normalize(b)
  {
    var s, t := Sort(a.members), Sort(b.members);
    ObjectText(Ecma, a);
    ObjectText(Ecma, b);
    SortKeepsMap(a.members);
    SortKeepsMap(b.members);
    KeysOfMap(s, t);
    KeysOfMap(t, s);
    SortedKeysAgree(s, t);
    SortedFrom(a.members);
    SortedFrom(b.members);
    forall i | 0 <= i < |s| ensures NormalizeMember(s[i]) == NormalizeMember(t[i]) {
      Lookup(s, i);
      Lookup(t, i);
      assert s[i] in a.members && t[i] in b.members;
    }
    SameNormalMembers(s, t);
  }

  lemma SameNormalMembers(s: seq<Member>, t: seq<Member>)
    requires |s| == |t| && forall i :: 0 <= i < |s| ==> NormalizeMember(s[i]) == NormalizeMember(t[i])
    ensures NormalizeMembers(s) == NormalizeMembers(t)
  {
    forall i | 0 <= i < |s| ensures NormalizeMembers(s)[i] == NormalizeMembers(t)[i] {
      assert NormalizeMembers(s)[i] == NormalizeMember(s[i]);
    }
  }

  lemma KeysOfMap(a: seq<Member>, b: seq<Member>)
    requires DistinctKeys(a) && DenoteMembers(a) == DenoteMembers(b)
    ensures KeysWithin(a, b)
  {
    forall i | 0 <= i < |a| ensures HasKey(b, a[i].key) {
      Lookup(a, i);
      assert a[i].key in DenoteMembers(b);
    }
  }

  // ---------------------------------------------------------------- main results

  /** No value inside makes the serialiser throw. */
  predicate Serializable(v: Value)
    decreases v
  {
    match v
    case Array(es) => forall e :: e in es ==> Serializable(e)
    case Object(ms) => forall m :: m in ms ==> Serializable(m.value)
    case NonFinite => false
    case Unsupported => false
    case _ => true
  }

  lemma {:induction false} ThrowsExact(d: Dialect, v: Value)
    ensures Canonicalize(d, v).Ok? <==> Serializable(v)
    decreases v
  {
    match v
    case Array(es) =>
      forall i | 0 <= i < |es| ensures ElemTexts(d, es)[i].Ok? <==> Serializable(es[i]) {
        ThrowsExact(d, es[i]);
      }
      assert Canonicalize(d, v) == Bracketed(LBRACKET, Collect(ElemTexts(d, es)), RBRACKET);
    case Object(ms) =>
      forall m | m in ms ensures Canonicalize(d, m.value).Ok? <==> Serializable(m.value) {
        ThrowsExact(d, m.value);
      }
      ObjectThrows(d, v);
    case _ =>
  }

  lemma ObjectThrows(d: Dialect, v: Value)
    requires v.Object?
    requires forall m :: m in v.members ==> (Canonicalize(d, m.value).Ok? <==> Serializable(m.value))
    ensures Canonicalize(d, v).Ok? <==> Serializable(v)
  {
    var sorted := Sort(v.members);
    ObjectText(d, v);
    SortedFrom(v.members);
    var texts := MemberTexts(d, sorted);
    forall i | 0 <= i < |sorted| ensures texts[i].Ok? <==> Serializable(sorted[i].value) {
      assert sorted[i] in v.members;
    }
    if Collect(texts).Ok? {
      forall m | m in v.members ensures Serializable(m.value) {
        var i :| 0 <= i < |sorted| && sorted[i] == m;
        assert texts[i].Ok?;
      }
    } else {
      var i :| 0 <= i < |texts| && !texts[i].Ok?;
      assert sorted[i] in v.members;
    }
  }

  /** Reading a canonical text gives a value of the same meaning, and uses all of it. */
  lemma RoundTrip(d: Dialect, v: Value)
    requires WellFormed(v) && Serializable(v)
    ensures Canonicalize(d, v).Ok?
    ensures
      var r := ReadValue(Canonicalize(d, v).value);
      r.Read? && r.rest == [] && Denote(r.value) == Denote(v)
  {
    ThrowsExact(d, v);
    ValueReads(d, v, []);
    assert Canonicalize(d, v).value + [] == Canonicalize(d, v).value;
    NormalizeKeepsMeaning(v);
  }

  lemma {:induction false} SameNormalSameText(d: Dialect, a: Value, b: Value)
    requires WellFormed(a) && WellFormed(b) && Normalize(a) == Normalize(b)
    ensures Canonicalize(d, a) == Canonicalize(d, b)
    decreases a
  {
    match a
    case Array(es) =>
      forall i | 0 <= i < |es| ensures Canonicalize(d, es[i]) == Canonicalize(d, b.elems[i]) {
        assert Normalize(a).elems[i] == Normalize(b).elems[i];
        SameNormalSameText(d, es[i], b.elems[i]);
      }
      assert |es| == |Normalize(a).elems| == |b.elems|;
      assert ElemTexts(d, es) == ElemTexts(d, b.elems);
      assert Canonicalize(d, a) == Bracketed(LBRACKET, Collect(ElemTexts(d, es)), RBRACKET);
      assert Canonicalize(d, b) == Bracketed(LBRACKET, Collect(ElemTexts(d, b.elems)), RBRACKET);
    case Object(ms) =>
      forall m, n | m in ms && n in b.members && Normalize(m.value) == Normalize(n.value)
        ensures Canonicalize(d, m.value) == Canonicalize(d, n.value)
      {
        SameNormalSameText(d, m.value, n.value);
      }
      SameNormalObjects(d, a, b);
    case _ =>
  }

  lemma SameNormalObjects(d: Dialect, a: Value, b: Value)
    requires a.Object? && b.Object? && Normalize(a) == Normalize(b)
    requires forall m, n :: m in a.members && n in b.members && Normalize(m.value) == Normalize(n.value) ==>
               Canonicalize(d, m.value) == Canonicalize(d, n.value)
    ensures Canonicalize(d, a) == Canonicalize(d, b)
  {
    var s, t := Sort(a.members), Sort(b.members);
    ObjectText(d, a);
    ObjectText(d, b);
    SortedFrom(a.members);
    SortedFrom(b.members);
    var x, y := NormalizeMembers(s), NormalizeMembers(t);
    assert x == y && |s| == |x| && |t| == |y|;
    forall i | 0 <= i < |s| ensures MemberText(d, s[i]) == MemberText(d, t[i]) {
      assert x[i] == y[i];
      assert s[i] in a.members && t[i] in b.members;
    }
    SameMemberTexts(d, s, t);
  }

  lemma SameMemberTexts(d: Dialect, s: seq<Member>, t: seq<Member>)
    requires |s| == |t| && forall i :: 0 <= i < |s| ==> MemberText(d, s[i]) == MemberText(d, t[i])
    ensures MemberTexts(d, s) == MemberTexts(d, t)
  {}

  /** Two values have one canonical text exactly when they are the same JSON value,
      whatever the order in which their members were inserted. */
  lemma CanonicalExact(d: Dialect, a: Value, b: Value)
    requires WellFormed(a) && WellFormed(b) && Serializable(a) && Serializable(b)
    ensures Canonicalize(d, a) == Canonicalize(d, b) <==> Denote(a) == Denote(b)
  {
    if Denote(a) == Denote(b) {
      SameMeaningSameNormal(a, b);
      SameNormalSameText(d, a, b);
    } else {
      RoundTrip(d, a);
      RoundTrip(d, b);
    }
  }

  // -------------------------------------------------------- no control characters

  predicate NoControls(t: Text) {
    forall i :: 0 <= i < |t| ==> t[i] >= 0x20
  }

  lemma {:induction false} EscapeNoControls(d: Dialect, s: Text)
    ensures NoControls(Escape(d, s))
    decreases |s|
  {
    if s == [] {
    } else if |s| >= 2 && IsHighSurrogate(s[0]) && IsLowSurrogate(s[1]) {
      EscapeNoControls(d, s[2..]);
    } else {
      EscapeNoControls(d, s[1..]);
    }
  }

  lemma {:induction false} JoinNoControls(texts: seq<Text>)
    requires forall i :: 0 <= i < |texts| ==> NoControls(texts[i])
    ensures NoControls(Join(texts))
  {
    if |texts| > 1 {
      JoinNoControls(texts[1..]);
    }
  }

  lemma BracketedNoControls(open: nat, texts: seq<Text>, close: nat)
    requires open >= 0x20 && close >= 0x20
    requires forall i :: 0 <= i < |texts| ==> NoControls(texts[i])
    ensures NoControls([open] + Join(texts) + [close])
  {
    JoinNoControls(texts);
  }

  lemma MemberNoControls(d: Dialect, m: Member)
    requires MemberText(d, m).Ok? && NoControls(Canonicalize(d, m.value).value)
    ensures NoControls(MemberText(d, m).value)
  {
    EscapeNoControls(d, m.key);
  }

  lemma ObjectNoControls(d: Dialect, v: Value)
    requires v.Object? && Canonicalize(d, v).Ok?
    requires forall m :: m in v.members && Canonicalize(d, m.value).Ok? ==> NoControls(Canonicalize(d, m.value).value)
    ensures NoControls(Canonicalize(d, v).value)
  {
    var sorted := Sort(v.members);
    ObjectText(d, v);
    SortedFrom(v.members);
    var texts := Collect(MemberTexts(d, sorted)).value;
    forall i | 0 <= i < |sorted| ensures NoControls(texts[i]) {
      assert sorted[i] in v.members && MemberTexts(d, sorted)[i] == Ok(texts[i]);
      MemberNoControls(d, sorted[i]);
    }
    BracketedNoControls(LBRACE, texts, RBRACE);
  }

  /** Canonical texts contain no control character, whatever is in their strings. */
  lemma {:induction false} CanonicalNoControls(d: Dialect, v: Value)
    requires Canonicalize(d, v).Ok?
    ensures NoControls(Canonicalize(d, v).value)
    decreases v
  {
    match v
    case String(s) => EscapeNoControls(d, s);
    case Array(es) =>
      var texts := Collect(ElemTexts(d, es)).value;
      forall i | 0 <= i < |es| ensures NoControls(texts[i]) {
        assert ElemTexts(d, es)[i] == Ok(texts[i]);
        CanonicalNoControls(d, es[i]);
      }
      BracketedNoControls(LBRACKET, texts, RBRACKET);
    case Object(ms) =>
      forall m | m in ms && Canonicalize(d, m.value).Ok? ensures NoControls(Canonicalize(d, m.value).value) {
        CanonicalNoControls(d, m.value);
      }
      ObjectNoControls(d, v);
    case _ =>
  }
}
