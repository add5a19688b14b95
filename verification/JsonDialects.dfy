/** When the TypeScript and the Go serialiser write the same bytes. */
module JsonDialects {
  import opened Json
  import opened JsonReader
  import opened JsonMeaning

  /** Text outside the surrogates, where UTF-16 units are scalar values. */
  predicate NoSurrogates(t: Text) {
    forall i :: 0 <= i < |t| ==> !(0xD800 <= t[i] < 0xE000)
  }

  /** No ampersand and no angle bracket. */
  predicate NoHtml(t: Text) {
    forall i :: 0 <= i < |t| ==> t[i] !in {38, 60, 62}
  }

  predicate PlainTexts(v: Value)
    decreases v
  {
    match v
    case String(s) => NoSurrogates(s)
    case Array(es) => forall e :: e in es ==> PlainTexts(e)
    case Object(ms) => forall m :: m in ms ==> NoSurrogates(m.key) && PlainTexts(m.value)
    case _ => true
  }

  /** No string and no key holds a character that Go escapes for HTML. */
  predicate HtmlFree(v: Value)
    decreases v
  {
    match v
    case String(s) => NoHtml(s)
    case Array(es) => forall e :: e in es ==> HtmlFree(e)
    case Object(ms) => forall m :: m in ms ==> NoHtml(m.key) && HtmlFree(m.value)
    case _ => true
  }

  /** The Go text is at least as long, and the two are the same exactly when `same`. */
  predicate Grows(ecma: Text, go: Text, same: bool) {
    |ecma| <= |go| && (|ecma| == |go| <==> same) && (same ==> ecma == go)
  }

  lemma GrowsTogether(e: Text, g: Text, same: bool, f: Text, h: Text, alike: bool)
    requires Grows(e, g, same) && Grows(f, h, alike)
    ensures Grows(e + f, g + h, same && alike)
  {}

  lemma UnitGrows(c: nat)
    requires !(0xD800 <= c < 0xE000)
    ensures Grows(EscapeUnit(Ecma, c), EscapeUnit(GoHtml, c), c !in {38, 60, 62})
  {}

  lemma {:induction false} EscapeGrows(s: Text)
    requires NoSurrogates(s)
    ensures Grows(Escape(Ecma, s), Escape(GoHtml, s), NoHtml(s))
  {
    if s != [] {
      UnitGrows(s[0]);
      EscapeGrows(s[1..]);
      GrowsTogether(EscapeUnit(Ecma, s[0]), EscapeUnit(GoHtml, s[0]), s[0] !in {38, 60, 62},
                    Escape(Ecma, s[1..]), Escape(GoHtml, s[1..]), NoHtml(s[1..]));
      assert s == [s[0]] + s[1..];
    }
  }

  lemma QuoteGrows(s: Text)
    requires NoSurrogates(s)
    ensures Grows(Quote(Ecma, s), Quote(GoHtml, s), NoHtml(s))
  {
    EscapeGrows(s);
  }

  /** Lists of texts, each growing or the same as `same` says. */
  predicate AllGrow(es: seq<Text>, gs: seq<Text>, same: seq<bool>) {
    |es| == |gs| == |same| && forall i :: 0 <= i < |es| ==> Grows(es[i], gs[i], same[i])
  }

  predicate All(same: seq<bool>) {
    forall i :: 0 <= i < |same| ==> same[i]
  }

  lemma {:induction false} JoinGrows(es: seq<Text>, gs: seq<Text>, same: seq<bool>)
    requires AllGrow(es, gs, same)
    ensures Grows(Join(es), Join(gs), All(same))
  {
    if |es| > 1 {
      JoinGrows(es[1..], gs[1..], same[1..]);
      GrowsTogether(es[0] + [COMMA], gs[0] + [COMMA], same[0], Join(es[1..]), Join(gs[1..]), All(same[1..]));
      assert same == [same[0]] + same[1..];
    }
  }

  lemma BracketedGrows(open: nat, es: seq<Text>, gs: seq<Text>, same: seq<bool>, close: nat)
    requires AllGrow(es, gs, same)
    ensures Grows([open] + Join(es) + [close], [open] + Join(gs) + [close], All(same))
  {
    JoinGrows(es, gs, same);
  }

  /** What holds of a value that serialises. */
  predicate ValueGrows(v: Value) {
    && Canonicalize(Ecma, v).Ok? && Canonicalize(GoHtml, v).Ok?
    && Grows(Canonicalize(Ecma, v).value, Canonicalize(GoHtml, v).value, HtmlFree(v))
  }

  lemma ArrayGrows(v: Value)
    requires v.Array? && forall e :: e in v.elems ==> ValueGrows(e)
    ensures ValueGrows(v)
  {
    var es := v.elems;
    var same := seq(|es|, i requires 0 <= i < |es| => HtmlFree(es[i]));
    forall i | 0 <= i < |es| ensures ElemTexts(Ecma, es)[i].Ok? && ElemTexts(GoHtml, es)[i].Ok? {
      assert ValueGrows(es[i]);
    }
    var ecma, go := Collect(ElemTexts(Ecma, es)).value, Collect(ElemTexts(GoHtml, es)).value;
    forall i | 0 <= i < |es| ensures Grows(ecma[i], go[i], same[i]) {
      assert ElemTexts(Ecma, es)[i] == Ok(ecma[i]) && ElemTexts(GoHtml, es)[i] == Ok(go[i]);
      assert ValueGrows(es[i]);
    }
    BracketedGrows(LBRACKET, ecma, go, same, RBRACKET);
    if All(same) {
      forall e | e in es ensures HtmlFree(e) {
        var i :| 0 <= i < |es| && es[i] == e;
        assert same[i];
      }
    }
  }

  lemma MemberGrows(m: Member)
    requires NoSurrogates(m.key) && ValueGrows(m.value)
    ensures MemberText(Ecma, m).Ok? && MemberText(GoHtml, m).Ok?
    ensures Grows(MemberText(Ecma, m).value, MemberText(GoHtml, m).value, NoHtml(m.key) && HtmlFree(m.value))
  {
    QuoteGrows(m.key);
    GrowsTogether(Quote(Ecma, m.key) + [COLON], Quote(GoHtml, m.key) + [COLON], NoHtml(m.key),
                  Canonicalize(Ecma, m.value).value, Canonicalize(GoHtml, m.value).value, HtmlFree(m.value));
  }

  predicate MemberHtmlFree(m: Member) { NoHtml(m.key) && HtmlFree(m.value) }

  lemma ObjectGrows(v: Value)
    requires v.Object? && forall m :: m in v.members ==> NoSurrogates(m.key) && ValueGrows(m.value)
    ensures ValueGrows(v)
  {
    var ms := Sort(v.members);
    ObjectText(Ecma, v);
    ObjectText(GoHtml, v);
    SortedFrom(v.members);
    forall i | 0 <= i < |ms|
      ensures MemberTexts(Ecma, ms)[i].Ok? && MemberTexts(GoHtml, ms)[i].Ok?
      ensures Grows(MemberTexts(Ecma, ms)[i].value, MemberTexts(GoHtml, ms)[i].value, MemberHtmlFree(ms[i]))
    {
      assert ms[i] in v.members;
      MemberGrows(ms[i]);
    }
    var same := seq(|ms|, i requires 0 <= i < |ms| => MemberHtmlFree(ms[i]));
    var ecma, go := Collect(MemberTexts(Ecma, ms)).value, Collect(MemberTexts(GoHtml, ms)).value;
    forall i | 0 <= i < |ms| ensures Grows(ecma[i], go[i], same[i]) {
      assert MemberTexts(Ecma, ms)[i] == Ok(ecma[i]) && MemberTexts(GoHtml, ms)[i] == Ok(go[i]);
    }
    BracketedGrows(LBRACE, ecma, go, same, RBRACE);
    SameMembersFree(v, ms, same);
  }

  lemma SameMembersFree(v: Value, ms: seq<Member>, same: seq<bool>)
    requires v.Object? && (forall m :: m in ms <==> m in v.members) && |same| == |ms|
    requires forall i :: 0 <= i < |ms| ==> same[i] == MemberHtmlFree(ms[i])
    ensures All(same) <==> HtmlFree(v)
  {
    if All(same) {
      forall m | m in v.members ensures NoHtml(m.key) && HtmlFree(m.value) {
        var i :| 0 <= i < |ms| && ms[i] == m;
        assert same[i];
      }
    }
    if HtmlFree(v) {
      forall i | 0 <= i < |ms| ensures same[i] {
        assert ms[i] in v.members;
      }
    }
  }

  lemma {:induction false} CanonicalGrows(v: Value)
    requires Serializable(v) && PlainTexts(v)
    ensures ValueGrows(v)
    decreases v
  {
    match v
    case String(s) => QuoteGrows(s);
    case Array(es) =>
      forall e | e in es ensures ValueGrows(e) {
        CanonicalGrows(e);
      }
      ArrayGrows(v);
    case Object(ms) =>
      forall m | m in ms ensures ValueGrows(m.value) {
        CanonicalGrows(m.value);
      }
      ObjectGrows(v);
    case _ =>
  }

  /** On texts without surrogates the two serialisers write the same exactly when no string
      and no key holds an ampersand or an angle bracket. */
  lemma DialectsAgreeExact(v: Value)
    requires Serializable(v) && PlainTexts(v)
    ensures Canonicalize(Ecma, v) == Canonicalize(GoHtml, v) <==> HtmlFree(v)
  {
    CanonicalGrows(v);
  }
}
