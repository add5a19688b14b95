/** The Go serialiser, which writes objects and arrays piece by piece into a buffer. */
module JsonBuilder {
  import opened Json

  // -------------------------------------------------------- buffers against joining

  lemma {:induction false} JoinMore(texts: seq<Text>, t: Text)
    ensures Join(texts + [t]) == if texts == [] then t else Join(texts) + [COMMA] + t
  {
    if |texts| == 1 {
      assert (texts + [t])[1..] == [t];
    } else if texts != [] {
      JoinMore(texts[1..], t);
      assert (texts + [t])[1..] == texts[1..] + [t];
    }
  }

  /** The first error of a list of results is the error of the whole. */
  lemma {:induction false} FirstError(rs: seq<Result<Text>>, i: nat)
    requires i < |rs| && !rs[i].Ok? && forall j :: 0 <= j < i ==> rs[j].Ok?
    ensures forall open, close :: Bracketed(open, Collect(rs), close) == rs[i]
  {
    if i > 0 {
      FirstError(rs[1..], i - 1);
    }
  }

  /** The texts of results that are all fine. */
  function Texts(rs: seq<Result<Text>>): (ts: seq<Text>)
    requires forall j :: 0 <= j < |rs| ==> rs[j].Ok?
    ensures |ts| == |rs|
  {
    seq(|rs|, j requires 0 <= j < |rs| => rs[j].value)
  }

  lemma CollectTexts(rs: seq<Result<Text>>)
    requires forall j :: 0 <= j < |rs| ==> rs[j].Ok?
    ensures Collect(rs) == Ok(Texts(rs))
  {
    var r := Collect(rs);
    assert forall j :: 0 <= j < |rs| ==> rs[j] == Ok(r.value[j]);
    assert r.value == Texts(rs);
  }

  /** A buffer that holds the first i texts after an opening bracket. */
  function Buffer(open: nat, rs: seq<Result<Text>>, i: nat): Text
    requires i <= |rs| && forall j :: 0 <= j < i ==> rs[j].Ok?
  {
    [open] + Join(Texts(rs[..i]))
  }

  lemma BufferMore(open: nat, rs: seq<Result<Text>>, i: nat)
    requires i < |rs| && forall j :: 0 <= j <= i ==> rs[j].Ok?
    ensures Buffer(open, rs, i + 1) ==
            (if i > 0 then Buffer(open, rs, i) + [COMMA] else Buffer(open, rs, i)) + rs[i].value
  {
    assert Texts(rs[..i + 1]) == Texts(rs[..i]) + [rs[i].value];
    JoinMore(Texts(rs[..i]), rs[i].value);
  }

  lemma BufferDone(open: nat, rs: seq<Result<Text>>, close: nat)
    requires forall j :: 0 <= j < |rs| ==> rs[j].Ok?
    ensures Bracketed(open, Collect(rs), close) == Ok(Buffer(open, rs, |rs|) + [close])
  {
    assert rs[..|rs|] == rs;
    CollectTexts(rs);
  }

  // ------------------------------------------------------------------ serialising

  function ElemResults(es: seq<Value>): seq<Result<Text>> {
    seq(|es|, i requires 0 <= i < |es| => Canonicalize(GoHtml, es[i]))
  }

  function MemberResults(ms: seq<Member>): seq<Result<Text>> {
    seq(|ms|, i requires 0 <= i < |ms| => WithKey(GoHtml, ms[i].key, Canonicalize(GoHtml, ms[i].value)))
  }

  method MarshalJcs(v: Value) returns (r: Result<Text>)
    ensures r == Canonicalize(GoHtml, v)
    decreases v, 1
  {
    match v {
      case Object(ms) =>
        r := MarshalObject(v);
      case Array(es) =>
        r := MarshalArray(v);
      case Null => r := Ok(NULL);
      case Bool(b) => r := Ok(if b then TRUE else FALSE);
      case Number(literal) => r := Ok(literal);
      case String(s) => r := Ok(Quote(GoHtml, s));
      case NonFinite => r := RangeError;
      case Unsupported => r := TypeError;
    }
  }

  method MarshalArray(v: Value) returns (r: Result<Text>)
    requires v.Array?
    ensures r == Canonicalize(GoHtml, v)
    decreases v, 0
  {
    var arr := v.elems;
    ghost var rs := ElemResults(arr);
    var buf: Text := [LBRACKET];
    for i := 0 to |arr|
      invariant forall j :: 0 <= j < i ==> rs[j].Ok?
      invariant buf == Buffer(LBRACKET, rs, i)
    {
      if i > 0 {
        buf := buf + [COMMA];
      }
      var b := MarshalJcs(arr[i]);
      if !b.Ok? {
        FirstError(rs, i);
        return b;
      }
      BufferMore(LBRACKET, rs, i);
      buf := buf + b.value;
    }
    BufferDone(LBRACKET, rs, RBRACKET);
    r := Ok(buf + [RBRACKET]);
  }

  lemma ObjectResults(v: Value)
    requires v.Object?
    ensures Canonicalize(GoHtml, v) == Bracketed(LBRACE, Collect(MemberResults(Sort(v.members))), RBRACE)
  {
    var sorted := Sort(v.members);
    var rs := seq(|sorted|, i requires 0 <= i < |sorted| =>
      assert sorted[i] in multiset(v.members);
      WithKey(GoHtml, sorted[i].key, Canonicalize(GoHtml, sorted[i].value)));
    assert rs == MemberResults(sorted);
  }

  method MarshalMember(m: Member) returns (r: Result<Text>)
    ensures r == WithKey(GoHtml, m.key, Canonicalize(GoHtml, m.value))
    decreases m, 0
  {
    var value := MarshalJcs(m.value);
    if !value.Ok? {
      return value;
    }
    r := Ok(Quote(GoHtml, m.key) + [COLON] + value.value);
  }

  method MarshalObject(v: Value) returns (r: Result<Text>)
    requires v.Object?
    ensures r == Canonicalize(GoHtml, v)
    decreases v, 0
  {
    var sorted := Sort(v.members);
    ghost var rs := MemberResults(sorted);
    ObjectResults(v);
    var buf: Text := [LBRACE];
    for i := 0 to |sorted|
      invariant forall j :: 0 <= j < i ==> rs[j].Ok?
      invariant buf == Buffer(LBRACE, rs, i)
    {
      if i > 0 {
        buf := buf + [COMMA];
      }
      assert sorted[i] in multiset(v.members);
      var member := MarshalMember(sorted[i]);
      if !member.Ok? {
        FirstError(rs, i);
        return member;
      }
      BufferMore(LBRACE, rs, i);
      buf := buf + member.value;
    }
    BufferDone(LBRACE, rs, RBRACE);
    r := Ok(buf + [RBRACE]);
  }
}
