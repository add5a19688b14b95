/** What a canonical text looks like, said without the serialiser's own terms: the order
    of the keys, how a character is written, which error ends it, and one text written
    out. */
module JsonText {
  import opened Json
  import opened JsonReader
  import opened JsonMeaning

  // ------------------------------------------------------------------ order of keys

  /** The texts agree up to k, where the first ends or has the smaller character. */
  predicate DiffersAt(a: Text, b: Text, k: nat) {
    && k <= |a| && k < |b| && a[..k] == b[..k]
    && (k == |a| || a[k] < b[k])
  }

  ghost predicate Precedes(a: Text, b: Text) {
    exists k :: DiffersAt(a, b, k)
  }

  lemma DiffersLater(a: Text, b: Text, k: nat)
    requires a != [] && b != [] && a[0] == b[0]
    ensures DiffersAt(a[1..], b[1..], k) <==> DiffersAt(a, b, k + 1)
  {
    if k < |a| && k < |b| {
      assert a[..k + 1] == [a[0]] + a[1..][..k] && b[..k + 1] == [b[0]] + b[1..][..k];
      assert a[1..][..k] == a[..k + 1][1..] && b[1..][..k] == b[..k + 1][1..];
    }
  }

  lemma SameStart(a: Text, b: Text, k: nat)
    requires 0 < k <= |a| && k <= |b| && a[..k] == b[..k]
    ensures a[0] == b[0]
  {
    assert a[0] == a[..k][0] && b[0] == b[..k][0];
  }

  lemma StartsDiffer(a: Text, b: Text)
    requires a != [] && b != [] && a[0] != b[0]
    ensures Precedes(a, b) <==> a[0] < b[0]
  {
    assert DiffersAt(a, b, 0) <==> a[0] < b[0];
    if k: nat :| DiffersAt(a, b, k) {
      if k > 0 {
        SameStart(a, b, k);
      }
    }
  }

  lemma {:induction false} BeforeIsPrecedes(a: Text, b: Text)
    ensures Before(a, b) <==> Precedes(a, b)
    decreases |a|
  {
    if b == [] {
    } else if a == [] {
      assert DiffersAt(a, b, 0);
    } else if a[0] != b[0] {
      StartsDiffer(a, b);
    } else {
      BeforeIsPrecedes(a[1..], b[1..]);
      if k: nat :| DiffersAt(a[1..], b[1..], k) {
        DiffersLater(a, b, k);
      }
      if k: nat :| DiffersAt(a, b, k) {
        assert k > 0;
        DiffersLater(a, b, k - 1);
      }
    }
  }

  ghost predicate KeysAscend(ms: seq<Member>) {
    forall i, j :: 0 <= i < j < |ms| ==> Precedes(ms[i].key, ms[j].key)
  }

  /** In every object inside. */
  ghost predicate AllKeysAscend(v: Value)
    decreases v
  {
    match v
    case Array(es) => forall e :: e in es ==> AllKeysAscend(e)
    case Object(ms) => KeysAscend(ms) && forall m :: m in ms ==> AllKeysAscend(m.value)
    case _ => true
  }

  lemma {:induction false} NormalKeysAscend(v: Value)
    requires WellFormed(v)
    ensures AllKeysAscend(Normalize(v))
    decreases v
  {
    match v
    case Array(es) =>
      forall e | e in es ensures AllKeysAscend(Normalize(e)) {
        NormalKeysAscend(e);
      }
    case Object(ms) =>
      forall m | m in ms ensures AllKeysAscend(Normalize(m.value)) {
        NormalKeysAscend(m.value);
      }
      NormalMembersAscend(v);
    case _ =>
  }

  lemma NormalMembersAscend(v: Value)
    requires v.Object? && WellFormed(v) && forall m :: m in v.members ==> AllKeysAscend(Normalize(m.value))
    ensures AllKeysAscend(Normalize(v))
  {
    var sorted := Sort(v.members);
    var ns := NormalizeMembers(sorted);
    ObjectText(Ecma, v);
    SortKeepsMap(v.members);
    SortedFrom(v.members);
    forall i, j | 0 <= i < j < |ns| ensures Precedes(ns[i].key, ns[j].key) {
      assert Before(sorted[i].key, sorted[j].key);
      BeforeIsPrecedes(sorted[i].key, sorted[j].key);
    }
    forall n | n in ns ensures AllKeysAscend(n.value) {
      var i :| 0 <= i < |ns| && ns[i] == n;
      assert sorted[i] in v.members;
    }
  }

  /** Read back, a canonical text holds the keys of every object in ascending order. */
  lemma TextKeysAscend(d: Dialect, v: Value)
    requires WellFormed(v) && Serializable(v)
    ensures Canonicalize(d, v).Ok?
    ensures
      var r := ReadValue(Canonicalize(d, v).value);
      r.Read? && r.rest == [] && AllKeysAscend(r.value)
  {
    ThrowsExact(d, v);
    ValueReads(d, v, []);
    assert Canonicalize(d, v).value + [] == Canonicalize(d, v).value;
    NormalKeysAscend(v);
  }

  // -------------------------------------------------------------- single characters

  /** Characters that stand for themselves. */
  predicate Verbatim(d: Dialect, c: nat) {
    && c >= 0x20 && c != '"' as nat && c != '\\' as nat && c != 0x2028 && c != 0x2029
    && (d == Ecma ==> c < 0xD800 || c >= 0xE000)
    && (d == GoHtml ==> c != '&' as nat && c != '<' as nat && c != '>' as nat)
  }

  predicate IsLowerHex(c: nat) { '0' as nat <= c <= '9' as nat || 'a' as nat <= c <= 'f' as nat }

  /** A character is written as itself where it may be, as a backslash and a letter where
      there is one for it, and as a backslash, a u and four lower-case digits otherwise. */
  lemma UnitShape(d: Dialect, c: nat)
    ensures EscapeUnit(d, c) == [c] <==> Verbatim(d, c)
    ensures |EscapeUnit(d, c)| == 2 <==> c in {8, 9, 10, 12, 13, 34, 92}
    ensures
      var t := EscapeUnit(d, c);
      !Verbatim(d, c) && |t| != 2 ==>
        && |t| == 6 && t[0] == '\\' as nat && t[1] == 'u' as nat
        && IsLowerHex(t[2]) && IsLowerHex(t[3]) && IsLowerHex(t[4]) && IsLowerHex(t[5])
  {}

  /** The two halves of a surrogate pair are left as they are; any other character is
      written by itself. */
  lemma PairShape(d: Dialect, h: nat, l: nat, rest: Text)
    ensures Escape(d, [h, l] + rest) ==
            if 0xD800 <= h <= 0xDBFF && 0xDC00 <= l <= 0xDFFF then [h, l] + Escape(d, rest)
            else EscapeUnit(d, h) + Escape(d, [l] + rest)
  {
    assert ([h, l] + rest)[1..] == [l] + rest && ([h, l] + rest)[2..] == rest;
  }

  /** A number is printed as it is: digits, a sign, a point and an exponent. */
  lemma NumberShape(d: Dialect, literal: NumberLiteral)
    ensures Canonicalize(d, Number(literal)).Ok? && Canonicalize(d, Number(literal)).value == literal
    ensures forall c: nat :: IsNumberChar(c) <==>
              '0' as nat <= c <= '9' as nat || c in {'-' as nat, '+' as nat, '.' as nat, 'e' as nat, 'E' as nat}
    ensures forall c: nat :: IsNumberStart(c) <==> '0' as nat <= c <= '9' as nat || c == '-' as nat
  {}

  // ------------------------------------------------------------------------- errors

  /** One of the two values that cannot be written occurs somewhere. */
  predicate Occurs(fault: Value, v: Value)
    decreases v
  {
    v == fault ||
    match v
    case Array(es) => exists e :: e in es && Occurs(fault, e)
    case Object(ms) => exists m :: m in ms && Occurs(fault, m.value)
    case _ => false
  }

  lemma {:induction false} CollectFault(rs: seq<Result<Text>>)
    requires !Collect(rs).Ok?
    ensures exists i :: 0 <= i < |rs| && !rs[i].Ok? && Collect(rs).RangeError? == rs[i].RangeError?
  {
    if rs[0].Ok? {
      CollectFault(rs[1..]);
      var i :| 0 <= i < |rs[1..]| && !rs[1..][i].Ok? && Collect(rs[1..]).RangeError? == rs[1..][i].RangeError?;
      assert rs[i + 1] == rs[1..][i];
    }
  }

  /** The error says what was found: a number that is not finite, or something that is no
      JSON value. */
  lemma {:induction false} ErrorExact(d: Dialect, v: Value)
    ensures Canonicalize(d, v).RangeError? ==> Occurs(NonFinite, v)
    ensures Canonicalize(d, v).TypeError? ==> Occurs(Unsupported, v)
    decreases v
  {
    match v
    case Array(es) =>
      if !Canonicalize(d, v).Ok? {
        assert Canonicalize(d, v) == Bracketed(LBRACKET, Collect(ElemTexts(d, es)), RBRACKET);
        CollectFault(ElemTexts(d, es));
        var i :| 0 <= i < |es| && !ElemTexts(d, es)[i].Ok?
                 && Collect(ElemTexts(d, es)).RangeError? == ElemTexts(d, es)[i].RangeError?;
        ErrorExact(d, es[i]);
      }
    case Object(ms) =>
      if !Canonicalize(d, v).Ok? {
        var texts := MemberTexts(d, Sort(ms));
        ObjectText(d, v);
        SortedFrom(ms);
        CollectFault(texts);
        var i :| 0 <= i < |texts| && !texts[i].Ok? && Collect(texts).RangeError? == texts[i].RangeError?;
        assert Sort(ms)[i] in ms;
        ErrorExact(d, Sort(ms)[i].value);
      }
    case _ =>
  }

  // ---------------------------------------------------------------- one text in full

  function Chars(s: string): (t: Text)
    ensures |t| == |s|
  {
    seq(|s|, i requires 0 <= i < |s| => s[i] as nat)
  }

  /** Keys inserted out of order, and every kind of value. */
  function Sample(): Value {
    Object([
      Member(Chars("b"), Array([Null, Bool(true), Bool(false)])),
      Member(Chars("a"), String([34]))])
  }

  lemma Letters()
    ensures Chars("a") == [97] && Chars("b") == [98]
  {}

  lemma SampleSorted(ms: seq<Member>, x: Member, y: Member)
    requires ms == [x, y] && x.key == [98] && y.key == [97]
    ensures Sort(ms) == [y, x]
  {
    assert ms[1..] == [y] && ms[1..][1..] == [];
    assert Sort(ms[1..]) == [y];
    assert Before([97], [98]);
    assert Insert(x, [y]) == [y] + Insert(x, [y][1..]);
  }

  lemma CollectAll(rs: seq<Result<Text>>, ts: seq<Text>)
    requires |rs| == |ts| && forall i :: 0 <= i < |rs| ==> rs[i] == Ok(ts[i])
    ensures Collect(rs) == Ok(ts)
  {
    var r := Collect(rs);
    assert forall i :: 0 <= i < |rs| ==> rs[i] == Ok(r.value[i]);
    assert r.value == ts;
  }

  lemma JoinTwo(s: Text, t: Text)
    ensures Join([s, t]) == s + [44] + t
  {
    assert [s, t][1..] == [t];
  }

  lemma ListText(d: Dialect)
    ensures Canonicalize(d, Array([Null, Bool(true), Bool(false)])) == Ok(Chars("[null,true,false]"))
  {
    var es, texts := [Null, Bool(true), Bool(false)], [NULL, TRUE, FALSE];
    CollectAll(ElemTexts(d, es), texts);
    WordsText(texts);
    assert Canonicalize(d, Array(es)) == Bracketed(LBRACKET, Collect(ElemTexts(d, es)), RBRACKET);
  }

  lemma WordsText(texts: seq<Text>)
    requires texts == [NULL, TRUE, FALSE]
    ensures [91] + Join(texts) + [93] == Chars("[null,true,false]")
  {
    assert texts[1..] == [TRUE, FALSE];
    JoinTwo(TRUE, FALSE);
  }

  lemma EscapeMore(d: Dialect, c: nat, rest: Text)
    requires c < 0xD800
    ensures Escape(d, [c] + rest) == EscapeUnit(d, c) + Escape(d, rest)
  {
    assert ([c] + rest)[1..] == rest;
  }

  lemma StringText(d: Dialect)
    ensures Canonicalize(d, String([34])) == Ok([34, 92, 34, 34])
  {
    EscapeMore(d, 34, []);
    assert [34] + [] == [34];
    assert Quote(d, [34]) == [34, 92, 34, 34];
  }

  lemma KeyText(d: Dialect, c: nat)
    requires 97 <= c <= 98
    ensures Quote(d, [c]) == [34, c, 34]
  {
    EscapeMore(d, c, []);
    assert [c] + [] == [c];
  }

  lemma MemberSample(d: Dialect, m: Member, c: nat, t: Text)
    requires 97 <= c <= 98 && m.key == [c] && Canonicalize(d, m.value) == Ok(t)
    ensures MemberText(d, m) == Ok([34, c, 34, 58] + t)
  {
    KeyText(d, c);
    assert [34, c, 34] + [58] == [34, c, 34, 58];
  }

  lemma ObjectOfTwo(d: Dialect, ms: seq<Member>, s: Text, t: Text)
    requires |ms| == 2 && ms[0].key == [98] && ms[1].key == [97]
    requires Canonicalize(d, ms[0].value) == Ok(t) && Canonicalize(d, ms[1].value) == Ok(s)
    ensures Canonicalize(d, Object(ms)) == Ok([123] + ([34, 97, 34, 58] + s + [44] + ([34, 98, 34, 58] + t)) + [125])
  {
    var a, b := [34, 97, 34, 58] + s, [34, 98, 34, 58] + t;
    SampleSorted(ms, ms[0], ms[1]);
    ObjectText(d, Object(ms));
    MemberSample(d, ms[0], 98, t);
    MemberSample(d, ms[1], 97, s);
    CollectAll(MemberTexts(d, [ms[1], ms[0]]), [a, b]);
    JoinTwo(a, b);
  }

  lemma SampleChars(t: Text)
    requires t == Chars("[null,true,false]")
    ensures [123] + ([34, 97, 34, 58] + [34, 92, 34, 34] + [44] + ([34, 98, 34, 58] + t)) + [125]
            == Chars("{\"a\":\"\\\"\",\"b\":" + "[null,true,false]" + "}")
  {
    var start := Chars("{\"a\":\"\\\"\",\"b\":");
    assert start == [123, 34, 97, 34, 58, 34, 92, 34, 34, 44, 34, 98, 34, 58];
    assert Chars("}") == [125];
    CharsTogether("{\"a\":\"\\\"\",\"b\":", "[null,true,false]");
    CharsTogether("{\"a\":\"\\\"\",\"b\":" + "[null,true,false]", "}");
  }

  lemma CharsTogether(s: string, t: string)
    ensures Chars(s + t) == Chars(s) + Chars(t)
  {}

  /** The sample's text, in both dialects. */
  lemma SampleText(d: Dialect)
    ensures Canonicalize(d, Sample()) == Ok(Chars("{\"a\":\"\\\"\",\"b\":" + "[null,true,false]" + "}"))
  {
    Letters();
    ListText(d);
    StringText(d);
    ObjectOfTwo(d, Sample().members, [34, 92, 34, 34], Chars("[null,true,false]"));
    SampleChars(Chars("[null,true,false]"));
  }
}
