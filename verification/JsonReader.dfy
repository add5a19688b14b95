/** A reader for JSON texts in the grammar of RFC 8259, written without insignificant
    whitespace, and what it shows about the serialisers: reading a canonical text
    gives back the value, so the text determines the value.

    Number literals are opaque: the reader takes a run of number characters for one and
    leaves their own grammar (section 6 of RFC 8259) unread. */
module JsonReader {
  import opened Json

  datatype Parsed<T> = Fail | Read(value: T, rest: Text)

  // ------------------------------------------------------------------ the reader

  predicate IsHexDigit(c: nat) { 48 <= c <= 57 || 97 <= c <= 102 || 65 <= c <= 70 }

  function HexValue(c: nat): nat
    requires IsHexDigit(c)
  {
    if c <= 57 then c - 48 else if c <= 70 then c - 55 else c - 87
  }

  /** The unit named by the letter of a two-character escape. */
  function ShortMeaning(letter: nat): nat {
    if letter == QUOTE || letter == BACKSLASH || letter == 47 then letter
    else if letter == 98 then 8
    else if letter == 102 then 12
    else if letter == 110 then 10
    else if letter == 114 then 13
    else if letter == 116 then 9
    else 0
  }

  function ReadUnit(t: Text): (r: Parsed<nat>)
    requires t != []
    ensures r.Read? ==> |r.rest| < |t|
  {
    if t[0] == BACKSLASH then
      if |t| >= 6 && t[1] == 117 && IsHexDigit(t[2]) && IsHexDigit(t[3]) && IsHexDigit(t[4]) && IsHexDigit(t[5]) then
        Read(0x1000 * HexValue(t[2]) + 0x100 * HexValue(t[3]) + 16 * HexValue(t[4]) + HexValue(t[5]), t[6..])
      else if |t| >= 2 && ShortMeaning(t[1]) != 0 then Read(ShortMeaning(t[1]), t[2..])
      else Fail
    else if t[0] < 0x20 || t[0] == QUOTE then Fail
    else Read(t[0], t[1..])
  }

  /** The rest of a string whose opening quote has been read. */
  function ReadChars(t: Text): (r: Parsed<Text>)
    ensures r.Read? ==> |r.rest| < |t|
    decreases |t|
  {
    if t == [] then Fail
    else if t[0] == QUOTE then Read([], t[1..])
    else
      match ReadUnit(t)
      case Fail => Fail
      case Read(c, rest) =>
        match ReadChars(rest)
        case Fail => Fail
        case Read(s, after) => Read([c] + s, after)
  }

  function NumberRun(t: Text): (n: nat)
    ensures n <= |t|
    ensures forall i :: 0 <= i < n ==> IsNumberChar(t[i])
    ensures n < |t| ==> !IsNumberChar(t[n])
  {
    if t == [] || !IsNumberChar(t[0]) then 0 else 1 + NumberRun(t[1..])
  }

  function ReadValue(t: Text): (r: Parsed<Value>)
    ensures r.Read? ==> |r.rest| < |t|
    decreases |t|, 0
  {
    if t == [] then Fail
    else if NULL <= t then Read(Null, t[4..])
    else if TRUE <= t then Read(Bool(true), t[4..])
    else if FALSE <= t then Read(Bool(false), t[5..])
    else if IsNumberStart(t[0]) then
      var n := NumberRun(t);
      assert t[..n][0] == t[0];
      Read(Number(t[..n]), t[n..])
    else if t[0] == QUOTE then
      match ReadChars(t[1..])
      case Fail => Fail
      case Read(s, rest) => Read(String(s), rest)
    else if t[0] == LBRACKET then
      if |t| > 1 && t[1] == RBRACKET then Read(Array([]), t[2..])
      else
        match ReadElems(t[1..])
        case Fail => Fail
        case Read(es, rest) => Read(Array(es), rest)
    else if t[0] == LBRACE then
      if |t| > 1 && t[1] == RBRACE then Read(Object([]), t[2..])
      else
        match ReadMembers(t[1..])
        case Fail => Fail
        case Read(ms, rest) => Read(Object(ms), rest)
    else Fail
  }

  function ReadElems(t: Text): (r: Parsed<seq<Value>>)
    ensures r.Read? ==> |r.rest| < |t|
    decreases |t|, 1
  {
    match ReadValue(t)
    case Fail => Fail
    case Read(v, rest) =>
      if rest == [] then Fail
      else if rest[0] == RBRACKET then Read([v], rest[1..])
      else if rest[0] == COMMA then
        match ReadElems(rest[1..])
        case Fail => Fail
        case Read(vs, after) => Read([v] + vs, after)
      else Fail
  }

  function ReadMember(t: Text): (r: Parsed<Member>)
    ensures r.Read? ==> |r.rest| < |t|
    decreases |t|, 1
  {
    if t == [] || t[0] != QUOTE then Fail
    else
      match ReadChars(t[1..])
      case Fail => Fail
      case Read(key, rest) =>
        if rest == [] || rest[0] != COLON then Fail
        else
          match ReadValue(rest[1..])
          case Fail => Fail
          case Read(v, after) => Read(Member(key, v), after)
  }

  function ReadMembers(t: Text): (r: Parsed<seq<Member>>)
    ensures r.Read? ==> |r.rest| < |t|
    decreases |t|, 2
  {
    match ReadMember(t)
    case Fail => Fail
    case Read(m, rest) =>
      if rest == [] then Fail
      else if rest[0] == RBRACE then Read([m], rest[1..])
      else if rest[0] == COMMA then
        match ReadMembers(rest[1..])
        case Fail => Fail
        case Read(ms, after) => Read([m] + ms, after)
      else Fail
  }

  // ----------------------------------------------------- reading strings back

  lemma HexDigitReads(x: nat)
    requires x < 16
    ensures IsHexDigit(HexDigit(x)) && HexValue(HexDigit(x)) == x
  {}

  lemma FourDigits(c: nat)
    requires c < 0x10000
    ensures c / 0x1000 < 16
    ensures 0x1000 * (c / 0x1000) + 0x100 * (c / 0x100 % 16) + 16 * (c / 16 % 16) + c % 16 == c
  {
    assert c / 0x100 == c / 16 / 16 && c / 0x1000 == c / 0x100 / 16;
  }

  lemma Hex4Reads(c: nat, tail: Text)
    requires c < 0x10000
    ensures ReadUnit([BACKSLASH, 117] + Hex4(c) + tail) == Read(c, tail)
  {
    var t := [BACKSLASH, 117] + Hex4(c) + tail;
    FourDigits(c);
    HexDigitReads(c / 0x1000);
    HexDigitReads(c / 0x100 % 16);
    HexDigitReads(c / 16 % 16);
    HexDigitReads(c % 16);
    assert t[6..] == tail;
  }

  lemma UnitReads(d: Dialect, c: nat, tail: Text)
    ensures (EscapeUnit(d, c) + tail)[0] != QUOTE
    ensures ReadUnit(EscapeUnit(d, c) + tail) == Read(c, tail)
  {
    var t := EscapeUnit(d, c) + tail;
    if ShortEscape(c) != 0 {
      assert t[0] == BACKSLASH && t[1] == ShortEscape(c) && t[2..] == tail;
    } else if NeedsHex(d, c) {
      Hex4Reads(c, tail);
    } else {
      assert t[0] == c && t[1..] == tail;
    }
  }

  lemma {:induction false} CharsRead(d: Dialect, s: Text, tail: Text)
    ensures ReadChars(Escape(d, s) + [QUOTE] + tail) == Read(s, tail)
    decreases |s|
  {
    if s == [] {
      assert Escape(d, s) + [QUOTE] + tail == [QUOTE] + tail;
    } else if |s| >= 2 && IsHighSurrogate(s[0]) && IsLowSurrogate(s[1]) {
      CharsRead(d, s[2..], tail);
      PairReads(s[0], s[1], Escape(d, s[2..]), s[2..], tail);
      assert s == [s[0], s[1]] + s[2..];
    } else {
      EscapedReads(d, s, tail);
    }
  }

  lemma {:induction false} EscapedReads(d: Dialect, s: Text, tail: Text)
    requires s != [] && Escape(d, s) == EscapeUnit(d, s[0]) + Escape(d, s[1..])
    ensures ReadChars(Escape(d, s) + [QUOTE] + tail) == Read(s, tail)
    decreases |s|, 0
  {
    var after := Escape(d, s[1..]) + [QUOTE] + tail;
    CharsRead(d, s[1..], tail);
    UnitReads(d, s[0], after);
    CharsStep(EscapeUnit(d, s[0]) + after, s[0], after, s[1..], tail);
    QuoteAfter(EscapeUnit(d, s[0]), Escape(d, s[1..]), tail);
    assert s == [s[0]] + s[1..];
  }

  lemma QuoteAfter(a: Text, b: Text, tail: Text)
    ensures a + b + [QUOTE] + tail == a + (b + [QUOTE] + tail)
  {}

  lemma CharsStep(t: Text, c: nat, after: Text, s: Text, tail: Text)
    requires t != [] && t[0] != QUOTE && ReadUnit(t) == Read(c, after)
    requires ReadChars(after) == Read(s, tail)
    ensures ReadChars(t) == Read([c] + s, tail)
  {}

  lemma PairReads(a: nat, b: nat, chars: Text, s: Text, tail: Text)
    requires IsHighSurrogate(a) && IsLowSurrogate(b)
    requires ReadChars(chars + [QUOTE] + tail) == Read(s, tail)
    ensures ReadChars([a, b] + chars + [QUOTE] + tail) == Read([a, b] + s, tail)
  {
    var after := chars + [QUOTE] + tail;
    RawReads(b, after, s, tail);
    RawReads(a, [b] + after, [b] + s, tail);
    assert [a, b] + chars + [QUOTE] + tail == [a] + ([b] + after);
    assert [a, b] + s == [a] + ([b] + s);
  }

  lemma RawReads(c: nat, after: Text, s: Text, tail: Text)
    requires c >= 0x20 && c != QUOTE && c != BACKSLASH
    requires ReadChars(after) == Read(s, tail)
    ensures ReadChars([c] + after) == Read([c] + s, tail)
  {
    assert ([c] + after)[1..] == after;
  }

  // ------------------------------------------------------ reading values back

  /** The value with every object's members sorted by key. */
  function Normalize(v: Value): Value
    decreases v
  {
    match v
    case Array(es) => Array(seq(|es|, i requires 0 <= i < |es| => Normalize(es[i])))
    case Object(ms) =>
      var sorted := Sort(ms);
      Object(seq(|sorted|, i requires 0 <= i < |sorted| =>
        assert sorted[i] in multiset(ms);
        Member(sorted[i].key, Normalize(sorted[i].value))))
    case _ => v
  }

  /** What may follow a value: nothing that could extend a number. */
  predicate Delimited(rest: Text) { rest == [] || !IsNumberChar(rest[0]) }

  lemma {:induction false} NumberReads(literal: NumberLiteral, rest: Text)
    requires Delimited(rest)
    ensures ReadValue(literal + rest) == Read(Number(literal), rest)
  {
    var t := literal + rest;
    assert t[0] == literal[0];
    RunStops(literal, rest);
    assert t[..|literal|] == literal && t[|literal|..] == rest;
  }

  lemma {:induction false} RunStops(digits: Text, rest: Text)
    requires forall i :: 0 <= i < |digits| ==> IsNumberChar(digits[i])
    requires Delimited(rest)
    ensures NumberRun(digits + rest) == |digits|
  {
    if digits == [] {
      assert digits + rest == rest;
    } else {
      RunStops(digits[1..], rest);
      assert (digits + rest)[1..] == digits[1..] + rest;
    }
  }

  lemma CharsInQuotes(t: Text, s: Text, rest: Text)
    requires ReadChars(t) == Read(s, rest)
    ensures ReadValue([QUOTE] + t) == Read(String(s), rest)
  {
    assert ([QUOTE] + t)[1..] == t;
    StringStarts([QUOTE] + t, s, rest);
  }

  lemma StringStarts(t: Text, s: Text, rest: Text)
    requires t != [] && t[0] == QUOTE && ReadChars(t[1..]) == Read(s, rest)
    ensures ReadValue(t) == Read(String(s), rest)
  {
    assert !(NULL <= t) && !(TRUE <= t) && !(FALSE <= t);
  }

  lemma StringReads(d: Dialect, s: Text, rest: Text)
    ensures ReadValue(Quote(d, s) + rest) == Read(String(s), rest)
  {
    CharsRead(d, s, rest);
    CharsInQuotes(Escape(d, s) + [QUOTE] + rest, s, rest);
    Enclosed(QUOTE, Escape(d, s), QUOTE, rest);
  }

  /** Canonical texts begin with a character that closes no bracket. */
  lemma {:induction false} TextStarts(d: Dialect, v: Value)
    requires Canonicalize(d, v).Ok?
    ensures var t := Canonicalize(d, v).value; t != [] && t[0] != RBRACKET && t[0] != RBRACE
  {}

  lemma {:induction false} ValueReads(d: Dialect, v: Value, rest: Text)
    requires Canonicalize(d, v).Ok? && Delimited(rest)
    ensures ReadValue(Canonicalize(d, v).value + rest) == Read(Normalize(v), rest)
    decreases v, 0
  {
    match v
    case Null => WordReads(NULL, Null, rest);
    case Bool(b) => WordReads(if b then TRUE else FALSE, Bool(b), rest);
    case Number(literal) => NumberReads(literal, rest);
    case String(s) => StringReads(d, s, rest);
    case Array(es) => ArrayReads(d, v, rest);
    case Object(ms) => ObjectReads(d, v, rest);
  }

  lemma WordReads(word: Text, v: Value, rest: Text)
    requires (word, v) in {(NULL, Null), (TRUE, Bool(true)), (FALSE, Bool(false))}
    ensures ReadValue(word + rest) == Read(v, rest)
  {
    var t := word + rest;
    assert word <= t && t[0] == word[0] && t[|word|..] == rest;
    assert NULL <= t ==> t[0] == NULL[0];
    assert TRUE <= t ==> t[0] == TRUE[0];
  }

  // One step of the reader, for a text already known to begin as it should.

  lemma LastElemReads(t: Text, v: Value, rest: Text)
    requires ReadValue(t) == Read(v, [RBRACKET] + rest)
    ensures ReadElems(t) == Read([v], rest)
  {
    assert ([RBRACKET] + rest)[1..] == rest;
  }

  lemma NextElemReads(t: Text, v: Value, after: Text, vs: seq<Value>, rest: Text)
    requires ReadValue(t) == Read(v, [COMMA] + after) && ReadElems(after) == Read(vs, rest)
    ensures ReadElems(t) == Read([v] + vs, rest)
  {
    assert ([COMMA] + after)[1..] == after;
  }

  lemma ElemsInBrackets(t: Text, es: seq<Value>, rest: Text)
    requires t != [] && t[0] != RBRACKET && ReadElems(t) == Read(es, rest)
    ensures ReadValue([LBRACKET] + t) == Read(Array(es), rest)
  {
    assert ([LBRACKET] + t)[1..] == t;
  }

  lemma LastMemberReads(t: Text, m: Member, rest: Text)
    requires ReadMember(t) == Read(m, [RBRACE] + rest)
    ensures ReadMembers(t) == Read([m], rest)
  {
    assert ([RBRACE] + rest)[1..] == rest;
  }

  lemma NextMemberReads(t: Text, m: Member, after: Text, ms: seq<Member>, rest: Text)
    requires ReadMember(t) == Read(m, [COMMA] + after) && ReadMembers(after) == Read(ms, rest)
    ensures ReadMembers(t) == Read([m] + ms, rest)
  {
    assert ([COMMA] + after)[1..] == after;
  }

  lemma MembersInBraces(t: Text, ms: seq<Member>, rest: Text)
    requires t != [] && t[0] != RBRACE && ReadMembers(t) == Read(ms, rest)
    ensures ReadValue([LBRACE] + t) == Read(Object(ms), rest)
  {
    assert ([LBRACE] + t)[1..] == t;
  }

  lemma EmptyReads(rest: Text)
    ensures ReadValue([LBRACKET, RBRACKET] + rest) == Read(Array([]), rest)
    ensures ReadValue([LBRACE, RBRACE] + rest) == Read(Object([]), rest)
  {
    assert ([LBRACKET, RBRACKET] + rest)[2..] == rest && ([LBRACE, RBRACE] + rest)[2..] == rest;
  }

  lemma KeyValueReads(t: Text, key: Text, after: Text, v: Value, rest: Text)
    requires ReadChars(t) == Read(key, [COLON] + after) && ReadValue(after) == Read(v, rest)
    ensures ReadMember([QUOTE] + t) == Read(Member(key, v), rest)
  {
    assert ([QUOTE] + t)[1..] == t && ([COLON] + after)[1..] == after;
  }

  lemma Enclosed(open: nat, middle: Text, close: nat, rest: Text)
    ensures [open] + middle + [close] + rest == [open] + (middle + [close] + rest)
  {}

  lemma JoinStarts(texts: seq<Text>, close: nat, rest: Text)
    requires texts != [] && texts[0] != []
    ensures (Join(texts) + [close] + rest)[0] == texts[0][0]
  {}

  lemma JoinLast(text: Text, close: nat, rest: Text)
    ensures Join([text]) + [close] + rest == text + ([close] + rest)
  {}

  lemma Regroup(a: Text, c: nat, b: Text, d: nat, r: Text)
    ensures a + [c] + b + [d] + r == a + ([c] + (b + [d] + r))
  {}

  lemma JoinNext(texts: seq<Text>, close: nat, rest: Text)
    requires |texts| > 1
    ensures Join(texts) + [close] + rest == texts[0] + ([COMMA] + (Join(texts[1..]) + [close] + rest))
  {
    Regroup(texts[0], COMMA, Join(texts[1..]), close, rest);
  }

  function ElemTexts(d: Dialect, vs: seq<Value>): seq<Result<Text>> {
    seq(|vs|, i requires 0 <= i < |vs| => Canonicalize(d, vs[i]))
  }

  function NormalizeAll(vs: seq<Value>): seq<Value> {
    seq(|vs|, i requires 0 <= i < |vs| => Normalize(vs[i]))
  }

  lemma {:induction false} ArrayReads(d: Dialect, v: Value, rest: Text)
    requires v.Array? && Canonicalize(d, v).Ok?
    ensures ReadValue(Canonicalize(d, v).value + rest) == Read(Normalize(v), rest)
    decreases v, 0, 1
  {
    var es := v.elems;
    var texts := Collect(ElemTexts(d, es)).value;
    Enclosed(LBRACKET, Join(texts), RBRACKET, rest);
    if es == [] {
      EmptyReads(rest);
      assert [LBRACKET] + Join(texts) + [RBRACKET] == [LBRACKET, RBRACKET];
      assert NormalizeAll(es) == [];
    } else {
      ElemsRead(d, v, es, texts, rest);
      TextStarts(d, es[0]);
      JoinStarts(texts, RBRACKET, rest);
      ElemsInBrackets(Join(texts) + [RBRACKET] + rest, NormalizeAll(es), rest);
    }
  }

  lemma {:induction false} ElemsRead(d: Dialect, v: Value, vs: seq<Value>, texts: seq<Text>, rest: Text)
    requires v.Array? && vs != [] && |texts| == |vs|
    requires forall i :: 0 <= i < |vs| ==> vs[i] in v.elems && Canonicalize(d, vs[i]) == Ok(texts[i])
    ensures ReadElems(Join(texts) + [RBRACKET] + rest) == Read(NormalizeAll(vs), rest)
    decreases v, 0, 0, |vs|
  {
    if |vs| == 1 {
      ValueReads(d, vs[0], [RBRACKET] + rest);
      LastElem(vs, texts, rest);
    } else {
      ValueReads(d, vs[0], [COMMA] + (Join(texts[1..]) + [RBRACKET] + rest));
      ElemsRead(d, v, vs[1..], texts[1..], rest);
      MoreElems(vs, texts, rest);
    }
  }

  lemma LastElem(vs: seq<Value>, texts: seq<Text>, rest: Text)
    requires |vs| == |texts| == 1
    requires ReadValue(texts[0] + ([RBRACKET] + rest)) == Read(Normalize(vs[0]), [RBRACKET] + rest)
    ensures ReadElems(Join(texts) + [RBRACKET] + rest) == Read(NormalizeAll(vs), rest)
  {
    assert texts == [texts[0]];
    JoinLast(texts[0], RBRACKET, rest);
    LastElemReads(texts[0] + ([RBRACKET] + rest), Normalize(vs[0]), rest);
    assert NormalizeAll(vs) == [Normalize(vs[0])];
  }

  lemma MoreElems(vs: seq<Value>, texts: seq<Text>, rest: Text)
    requires |vs| == |texts| > 1
    requires
      var after := Join(texts[1..]) + [RBRACKET] + rest;
      && ReadValue(texts[0] + ([COMMA] + after)) == Read(Normalize(vs[0]), [COMMA] + after)
      && ReadElems(after) == Read(NormalizeAll(vs[1..]), rest)
    ensures ReadElems(Join(texts) + [RBRACKET] + rest) == Read(NormalizeAll(vs), rest)
  {
    var after := Join(texts[1..]) + [RBRACKET] + rest;
    JoinNext(texts, RBRACKET, rest);
    NextElemReads(texts[0] + ([COMMA] + after), Normalize(vs[0]), after, NormalizeAll(vs[1..]), rest);
    NormalizeAllSplit(vs);
  }

  lemma NormalizeAllSplit(vs: seq<Value>)
    requires vs != []
    ensures NormalizeAll(vs) == [Normalize(vs[0])] + NormalizeAll(vs[1..])
  {}

  function MemberText(d: Dialect, m: Member): Result<Text> {
    WithKey(d, m.key, Canonicalize(d, m.value))
  }

  function MemberTexts(d: Dialect, ms: seq<Member>): seq<Result<Text>> {
    seq(|ms|, i requires 0 <= i < |ms| => MemberText(d, ms[i]))
  }

  function NormalizeMembers(ms: seq<Member>): seq<Member> {
    seq(|ms|, i requires 0 <= i < |ms| => Member(ms[i].key, Normalize(ms[i].value)))
  }

  lemma {:induction false} ObjectReads(d: Dialect, v: Value, rest: Text)
    requires v.Object? && Canonicalize(d, v).Ok?
    ensures ReadValue(Canonicalize(d, v).value + rest) == Read(Normalize(v), rest)
    decreases v, 0, 1
  {
    var sorted := Sort(v.members);
    ObjectText(d, v);
    var texts := Collect(MemberTexts(d, sorted)).value;
    Enclosed(LBRACE, Join(texts), RBRACE, rest);
    if sorted == [] {
      EmptyReads(rest);
      assert [LBRACE] + Join(texts) + [RBRACE] == [LBRACE, RBRACE];
      assert NormalizeMembers(sorted) == [];
    } else {
      SortedFrom(v.members);
      MembersRead(d, v, sorted, texts, rest);
      assert texts[0] == MemberText(d, sorted[0]).value;
      JoinStarts(texts, RBRACE, rest);
      MembersInBraces(Join(texts) + [RBRACE] + rest, NormalizeMembers(sorted), rest);
    }
  }

  lemma SortedFrom(ms: seq<Member>)
    ensures forall m :: m in Sort(ms) <==> m in ms
  {
    assert forall m :: m in Sort(ms) <==> m in multiset(ms);
  }

  lemma ObjectText(d: Dialect, v: Value)
    requires v.Object?
    ensures Canonicalize(d, v) == Bracketed(LBRACE, Collect(MemberTexts(d, Sort(v.members))), RBRACE)
    ensures Normalize(v) == Object(NormalizeMembers(Sort(v.members)))
  {
    var sorted := Sort(v.members);
    assert MemberTexts(d, sorted) == seq(|sorted|, i requires 0 <= i < |sorted| =>
      WithKey(d, sorted[i].key, Canonicalize(d, sorted[i].value)));
  }

  lemma {:induction false} MemberReads(d: Dialect, v: Value, m: Member, rest: Text)
    requires v.Object? && m in v.members && MemberText(d, m).Ok? && Delimited(rest)
    ensures ReadMember(MemberText(d, m).value + rest) == Read(Member(m.key, Normalize(m.value)), rest)
    decreases v, 0, 0, 0
  {
    var body := Canonicalize(d, m.value).value;
    var chars := Escape(d, m.key);
    CharsRead(d, m.key, [COLON] + (body + rest));
    ValueReads(d, m.value, rest);
    KeyValueReads(chars + [QUOTE] + ([COLON] + (body + rest)), m.key, body + rest, Normalize(m.value), rest);
    MemberTextSplit(chars, body, rest);
  }

  lemma MemberTextSplit(chars: Text, body: Text, rest: Text)
    ensures [QUOTE] + chars + [QUOTE] + [COLON] + body + rest
            == [QUOTE] + (chars + [QUOTE] + ([COLON] + (body + rest)))
  {}

  lemma {:induction false} MembersRead(d: Dialect, v: Value, ms: seq<Member>, texts: seq<Text>, rest: Text)
    requires v.Object? && ms != [] && |texts| == |ms|
    requires forall i :: 0 <= i < |ms| ==> ms[i] in v.members && MemberText(d, ms[i]) == Ok(texts[i])
    ensures ReadMembers(Join(texts) + [RBRACE] + rest) == Read(NormalizeMembers(ms), rest)
    decreases v, 0, 0, |ms|
  {
    if |ms| == 1 {
      MemberReads(d, v, ms[0], [RBRACE] + rest);
      LastMember(ms, texts, rest);
    } else {
      MemberReads(d, v, ms[0], [COMMA] + (Join(texts[1..]) + [RBRACE] + rest));
      MembersRead(d, v, ms[1..], texts[1..], rest);
      MoreMembers(ms, texts, rest);
    }
  }

  function NormalizeMember(m: Member): Member { Member(m.key, Normalize(m.value)) }

  lemma LastMember(ms: seq<Member>, texts: seq<Text>, rest: Text)
    requires |ms| == |texts| == 1
    requires ReadMember(texts[0] + ([RBRACE] + rest)) == Read(NormalizeMember(ms[0]), [RBRACE] + rest)
    ensures ReadMembers(Join(texts) + [RBRACE] + rest) == Read(NormalizeMembers(ms), rest)
  {
    assert texts == [texts[0]];
    JoinLast(texts[0], RBRACE, rest);
    LastMemberReads(texts[0] + ([RBRACE] + rest), NormalizeMember(ms[0]), rest);
    assert NormalizeMembers(ms) == [NormalizeMember(ms[0])];
  }

  lemma MoreMembers(ms: seq<Member>, texts: seq<Text>, rest: Text)
    requires |ms| == |texts| > 1
    requires
      var after := Join(texts[1..]) + [RBRACE] + rest;
      && ReadMember(texts[0] + ([COMMA] + after)) == Read(NormalizeMember(ms[0]), [COMMA] + after)
      && ReadMembers(after) == Read(NormalizeMembers(ms[1..]), rest)
    ensures ReadMembers(Join(texts) + [RBRACE] + rest) == Read(NormalizeMembers(ms), rest)
  {
    var after := Join(texts[1..]) + [RBRACE] + rest;
    JoinNext(texts, RBRACE, rest);
    NextMemberReads(texts[0] + ([COMMA] + after), NormalizeMember(ms[0]), after, NormalizeMembers(ms[1..]), rest);
    NormalizeMembersSplit(ms);
  }

  lemma NormalizeMembersSplit(ms: seq<Member>)
    requires ms != []
    ensures NormalizeMembers(ms) == [NormalizeMember(ms[0])] + NormalizeMembers(ms[1..])
  {}
}
