/** Canonical JSON: the serialisers, and an RFC 8259 reader that shows what their
    output determines.

    Text is a sequence of numbers.  For the TypeScript serialiser they are UTF-16 code
    units, for the Go one Unicode scalar values; both sort keys in the order of those
    numbers.  A number value is its literal: the formatting of floating point is not
    modelled, only that a literal is made of number characters. */
module Json {
  type Text = seq<nat>

  const QUOTE: nat := 34
  const PLUS: nat := 43
  const COMMA: nat := 44
  const MINUS: nat := 45
  const DOT: nat := 46
  const ZERO: nat := 48
  const NINE: nat := 57
  const COLON: nat := 58
  const LBRACKET: nat := 91
  const BACKSLASH: nat := 92
  const RBRACKET: nat := 93
  const LBRACE: nat := 123
  const RBRACE: nat := 125

  const NULL: Text := [110, 117, 108, 108]
  const TRUE: Text := [116, 114, 117, 101]
  const FALSE: Text := [102, 97, 108, 115, 101]

  // ------------------------------------------------------------------- values

  predicate IsNumberStart(c: nat) { c == MINUS || ZERO <= c <= NINE }

  predicate IsNumberChar(c: nat) { IsNumberStart(c) || c in {PLUS, DOT, 69, 101} }

  predicate IsNumberLiteral(t: Text) {
    t != [] && IsNumberStart(t[0]) && forall i :: 0 <= i < |t| ==> IsNumberChar(t[i])
  }

  type NumberLiteral = t: Text | IsNumberLiteral(t) witness [48]

  /** What a caller may pass.  `NonFinite` and `Unsupported` are the values that make
      the serialiser throw. */
  datatype Value =
    | Null
    | Bool(b: bool)
    | Number(literal: NumberLiteral)
    | String(s: Text)
    | Array(elems: seq<Value>)
    | Object(members: seq<Member>)
    | NonFinite
    | Unsupported

  /** Members are in insertion order. */
  datatype Member = Member(key: Text, value: Value)

  datatype Result<T> = Ok(value: T) | RangeError | TypeError

  // ------------------------------------------------------------------ strings

  datatype Dialect = Ecma | GoHtml

  predicate IsHighSurrogate(c: nat) { 0xD800 <= c < 0xDC00 }

  predicate IsLowSurrogate(c: nat) { 0xDC00 <= c < 0xE000 }

  function HexDigit(x: nat): nat
    requires x < 16
  {
    if x < 10 then 48 + x else 87 + x
  }

  function Hex4(c: nat): Text
    requires c < 0x10000
  {
    [HexDigit(c / 0x1000), HexDigit(c / 0x100 % 16), HexDigit(c / 16 % 16), HexDigit(c % 16)]
  }

  /** The letter after the backslash of a two-character escape. */
  function ShortEscape(c: nat): (letter: nat)
    ensures letter == 0 || letter in {QUOTE, BACKSLASH, 98, 102, 110, 114, 116}
  {
    if c == QUOTE || c == BACKSLASH then c
    else if c == 8 then 98
    else if c == 9 then 116
    else if c == 10 then 110
    else if c == 12 then 102
    else if c == 13 then 114
    else 0
  }

  /** Units written as a backslash, a u and four hex digits. */
  predicate NeedsHex(d: Dialect, c: nat) {
    || c < 0x20
    || c == 0x2028 || c == 0x2029
    || (d.Ecma? && 0xD800 <= c < 0xE000)
    || (d.GoHtml? && c in {38, 60, 62})
  }

  function EscapeUnit(d: Dialect, c: nat): (t: Text)
    ensures t != []
  {
    if ShortEscape(c) != 0 then [BACKSLASH, ShortEscape(c)]
    else if NeedsHex(d, c) then [BACKSLASH, 117] + Hex4(c)
    else [c]
  }

  /** The inside of a quoted string.  A surrogate pair is left as it is; a surrogate
      standing alone is escaped. */
  function Escape(d: Dialect, s: Text): Text {
    if s == [] then []
    else if |s| >= 2 && IsHighSurrogate(s[0]) && IsLowSurrogate(s[1]) then [s[0], s[1]] + Escape(d, s[2..])
    else EscapeUnit(d, s[0]) + Escape(d, s[1..])
  }

  function Quote(d: Dialect, s: Text): Text { [QUOTE] + Escape(d, s) + [QUOTE] }

  // ------------------------------------------------------------------ sorting

  predicate Before(a: Text, b: Text) {
    b != [] && (a == [] || a[0] < b[0] || (a[0] == b[0] && Before(a[1..], b[1..])))
  }

  function Insert(m: Member, ms: seq<Member>): (r: seq<Member>)
    ensures multiset(r) == multiset(ms) + multiset{m}
  {
    if ms == [] then [m]
    else if Before(ms[0].key, m.key) then
      assert ms == [ms[0]] + ms[1..];
      [ms[0]] + Insert(m, ms[1..])
    else [m] + ms
  }

  function Sort(ms: seq<Member>): (r: seq<Member>)
    ensures multiset(r) == multiset(ms)
  {
    if ms == [] then []
    else
      assert ms == [ms[0]] + ms[1..];
      Insert(ms[0], Sort(ms[1..]))
  }

  // --------------------------------------------------------------- serialising

  function Join(texts: seq<Text>): Text {
    if texts == [] then []
    else if |texts| == 1 then texts[0]
    else texts[0] + [COMMA] + Join(texts[1..])
  }

  /** Runs a list of serialisations in order; the first error ends it. */
  function Collect(rs: seq<Result<Text>>): (r: Result<seq<Text>>)
    ensures r.Ok? ==> |r.value| == |rs| && forall i :: 0 <= i < |rs| ==> rs[i] == Ok(r.value[i])
    ensures r.Ok? <==> forall i :: 0 <= i < |rs| ==> rs[i].Ok?
  {
    if rs == [] then Ok([])
    else
      match rs[0]
      case RangeError => RangeError
      case TypeError => TypeError
      case Ok(t) =>
        match Collect(rs[1..])
        case RangeError => RangeError
        case TypeError => TypeError
        case Ok(ts) => Ok([t] + ts)
  }

  function Bracketed(open: nat, texts: Result<seq<Text>>, close: nat): Result<Text> {
    match texts
    case RangeError => RangeError
    case TypeError => TypeError
    case Ok(ts) => Ok([open] + Join(ts) + [close])
  }

  function WithKey(d: Dialect, key: Text, value: Result<Text>): Result<Text> {
    match value
    case RangeError => RangeError
    case TypeError => TypeError
    case Ok(t) => Ok(Quote(d, key) + [COLON] + t)
  }

  function Canonicalize(d: Dialect, v: Value): Result<Text>
    decreases v
  {
    match v
    case Null => Ok(NULL)
    case Bool(b) => Ok(if b then TRUE else FALSE)
    case Number(literal) => Ok(literal)
    case String(s) => Ok(Quote(d, s))
    case Array(es) =>
      Bracketed(LBRACKET, Collect(seq(|es|, i requires 0 <= i < |es| => Canonicalize(d, es[i]))), RBRACKET)
    case Object(ms) =>
      var sorted := Sort(ms);
      Bracketed(LBRACE, Collect(seq(|sorted|, i requires 0 <= i < |sorted| =>
        assert sorted[i] in multiset(ms);
        WithKey(d, sorted[i].key, Canonicalize(d, sorted[i].value)))), RBRACE)
    case NonFinite => RangeError
    case Unsupported => TypeError
  }
}
