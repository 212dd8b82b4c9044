/**
 * The JSON text that `JSON.stringify` writes and `JSON.parse` reads back,
 * for values whose numbers are integers.
 *
 * Stringify writes no whitespace, escapes `"`, `\` and the control
 * characters (the short forms \b \f \n \r \t, otherwise \u00xx in lower-case
 * hex) and writes every other character as it is. Parse accepts whitespace
 * between tokens, the literals, integers without leading zeros, strings
 * with all the escapes of JSON (a \u escape of a lone surrogate half as
 * U+FFFD), arrays and objects; it keeps an object's members in order,
 * duplicates included.
 */
module Json {

  import opened Wrappers

  datatype Value =
    | Null
    | Bool(b: bool)
    | Number(n: int)
    | String(s: string)
    | Array(items: seq<Value>)
    | Object(members: seq<Member>)

  datatype Member = Member(key: string, value: Value)

  /** What a parser read, and the text after it. */
  datatype Parsed<T> = Parsed(value: T, rest: string)

  // ---------------------------------------------------------------------
  // Writing

  function DigitChar(d: int): (c: char)
    requires 0 <= d < 10
    ensures IsDigit(c)
  {
    ('0' as int + d) as char
  }

  /** The decimal digits of a natural number, without leading zeros. */
  function NatToString(n: nat): (s: string)
    ensures |s| >= 1 && forall i :: 0 <= i < |s| ==> IsDigit(s[i])
    ensures s[0] == '0' ==> n == 0 && s == "0"
  {
    if n < 10 then [DigitChar(n)] else NatToString(n / 10) + [DigitChar(n % 10)]
  }

  function IntToString(n: int): string
  {
    if n < 0 then "-" + NatToString(-n) else NatToString(n)
  }

  function HexDigit(d: int): char
    requires 0 <= d < 16
  {
    if d < 10 then DigitChar(d) else ('a' as int + d - 10) as char
  }

  /** The text of one character inside a string literal. */
  function EscapeChar(c: char): string
  {
    if c == '"' then "\\\""
    else if c == '\\' then "\\\\"
    else if c == '\U{8}' then "\\b"
    else if c == '\U{C}' then "\\f"
    else if c == '\n' then "\\n"
    else if c == '\r' then "\\r"
    else if c == '\t' then "\\t"
    else if c < ' ' then "\\u00" + [HexDigit(c as int / 16), HexDigit(c as int % 16)]
    else [c]
  }

  function Escape(s: string): string
  {
    if s == [] then "" else EscapeChar(s[0]) + Escape(s[1..])
  }

  function Quote(s: string): string
  {
    "\"" + Escape(s) + "\""
  }

  function Stringify(v: Value): string
    decreases v
  {
    match v
    case Null => "null"
    case Bool(b) => if b then "true" else "false"
    case Number(n) => IntToString(n)
    case String(s) => Quote(s)
    case Array(items) => "[" + StringifyItems(items) + "]"
    case Object(ms) => "{" + StringifyMembers(ms) + "}"
  }

  function StringifyItems(items: seq<Value>): string
    decreases items
  {
    if items == [] then ""
    else if |items| == 1 then Stringify(items[0])
    else Stringify(items[0]) + "," + StringifyItems(items[1..])
  }

  function StringifyMembers(ms: seq<Member>): string
    decreases ms
  {
    if ms == [] then ""
    else if |ms| == 1 then Quote(ms[0].key) + ":" + Stringify(ms[0].value)
    else Quote(ms[0].key) + ":" + Stringify(ms[0].value) + "," + StringifyMembers(ms[1..])
  }

  // ---------------------------------------------------------------------
  // Reading

  predicate IsDigit(c: char)
  {
    '0' <= c <= '9'
  }

  predicate IsWhitespace(c: char)
  {
    c == ' ' || c == '\t' || c == '\n' || c == '\r'
  }

  function SkipWhitespace(s: string): (t: string)
    ensures |t| <= |s|
    ensures t == [] || !IsWhitespace(t[0])
  {
    if s != [] && IsWhitespace(s[0]) then SkipWhitespace(s[1..]) else s
  }

  /** Skipping whitespace drops a prefix of the text. */
  lemma {:induction false} SkipWhitespaceSuffix(s: string)
    ensures var t := SkipWhitespace(s); t != [] ==> s[|s| - |t|] == t[0]
  {
    if s != [] && IsWhitespace(s[0]) {
      SkipWhitespaceSuffix(s[1..]);
    }
  }

  /** The length of the run of digits that starts the text. */
  function DigitRun(s: string): (k: nat)
    ensures k <= |s|
    ensures forall i :: 0 <= i < k ==> IsDigit(s[i])
    ensures k < |s| ==> !IsDigit(s[k])
  {
    if s != [] && IsDigit(s[0]) then 1 + DigitRun(s[1..]) else 0
  }

  /** The value of a string of decimal digits. */
  function DigitsValue(d: string): nat
    requires forall i :: 0 <= i < |d| ==> IsDigit(d[i])
  {
    if d == [] then 0
    else
      assert IsDigit(d[|d| - 1]);
      DigitsValue(d[..|d| - 1]) * 10 + (d[|d| - 1] as int - '0' as int)
  }

  /**
   * An integer: an optional minus sign, then 0 or digits not starting with 0.
   * A fraction or an exponent is outside the model and rejected.
   */
  function ParseNumber(s: string): (r: Option<Parsed<Value>>)
    ensures r.Some? ==> |r.value.rest| < |s|
  {
    var negative := s != [] && s[0] == '-';
    var u := if negative then s[1..] else s;
    var k := DigitRun(u);
    if k == 0 then None
    else
      var len := if u[0] == '0' then 1 else k;
      var rest := u[len..];
      if rest != [] && (rest[0] == '.' || rest[0] == 'e' || rest[0] == 'E') then None
      else
        var n: int := DigitsValue(u[..len]);
        Some(Parsed(Number(if negative then -n else n), rest))
  }

  function HexValue(c: char): (r: Option<int>)
    ensures r.Some? ==> 0 <= r.value < 16
  {
    if '0' <= c <= '9' then Some(c as int - '0' as int)
    else if 'a' <= c <= 'f' then Some(c as int - 'a' as int + 10)
    else if 'A' <= c <= 'F' then Some(c as int - 'A' as int + 10)
    else None
  }

  /** The code unit of the four hex digits that start the text. */
  function Hex4(s: string): (r: Option<int>)
    ensures r.Some? ==> |s| >= 4 && 0 <= r.value < 0x10000
  {
    if |s| < 4 then None
    else
      var h0, h1, h2, h3 := HexValue(s[0]), HexValue(s[1]), HexValue(s[2]), HexValue(s[3]);
      if h0.None? || h1.None? || h2.None? || h3.None? then None
      else Some(((h0.value * 16 + h1.value) * 16 + h2.value) * 16 + h3.value)
  }

  /**
   * The character an escape stands for (the text starts after the
   * backslash), with the number of characters it takes. A surrogate that
   * is not the first half of a pair stands alone and reads as U+FFFD.
   */
  function ParseEscape(s: string): (r: Option<(char, nat)>)
    ensures r.Some? ==> 1 <= r.value.1 <= |s|
  {
    if s == [] then None
    else if s[0] == '"' then Some(('"', 1))
    else if s[0] == '\\' then Some(('\\', 1))
    else if s[0] == '/' then Some(('/', 1))
    else if s[0] == 'b' then Some(('\U{8}', 1))
    else if s[0] == 'f' then Some(('\U{C}', 1))
    else if s[0] == 'n' then Some(('\n', 1))
    else if s[0] == 'r' then Some(('\r', 1))
    else if s[0] == 't' then Some(('\t', 1))
    else if s[0] == 'u' then
      match Hex4(s[1..])
      case None => None
      case Some(u) =>
        if u < 0xD800 || 0xE000 <= u then Some((u as char, 5))
        else if u < 0xDC00 && |s| >= 7 && s[5] == '\\' && s[6] == 'u' && Hex4(s[7..]).Some? &&
                0xDC00 <= Hex4(s[7..]).value < 0xE000 then
          var low := Hex4(s[7..]).value;
          Some(((0x10000 + (u - 0xD800) * 0x400 + (low - 0xDC00)) as char, 11))
        else Some((Replacement, 5))
    else None
  }

  /** U+FFFD, the character a lone surrogate half reads as. */
  const Replacement: char := '\U{FFFD}'

  /** `"\ud800"`, a high half with no low half after it, is one U+FFFD, as `JSON.parse` keeps the half on its own. */
  lemma LoneSurrogate()
    ensures ParseEscape("ud800") == Some((Replacement, 5))
  {
    assert HexValue('d') == Some(13) && HexValue('8') == Some(8) && HexValue('0') == Some(0);
    assert "ud800"[1..] == "d800";
    assert Hex4("d800") == Some(0xD800);
  }

  /** The body of a string literal, up to and including its closing quote. */
  function ParseString(s: string): (r: Option<Parsed<string>>)
    ensures r.Some? ==> |r.value.rest| < |s|
    decreases |s|
  {
    if s == [] then None
    else if s[0] == '"' then Some(Parsed([], s[1..]))
    else if s[0] == '\\' then
      match ParseEscape(s[1..])
      case None => None
      case Some((c, k)) =>
        match ParseString(s[1 + k..])
        case None => None
        case Some(p) => Some(Parsed([c] + p.value, p.rest))
    else if s[0] < ' ' then None
    else
      match ParseString(s[1..])
      case None => None
      case Some(p) => Some(Parsed([s[0]] + p.value, p.rest))
  }

  predicate StartsWith(s: string, prefix: string)
  {
    |prefix| <= |s| && s[..|prefix|] == prefix
  }

  /** One value, after optional whitespace. */
  function ParseValue(s: string): (r: Option<Parsed<Value>>)
    ensures r.Some? ==> |r.value.rest| < |s|
    decreases |s|, 0
  {
    var t := SkipWhitespace(s);
    if t == [] then None
    else if t[0] == '{' then ParseObject(t[1..])
    else if t[0] == '[' then ParseArray(t[1..])
    else if t[0] == '"' then
      match ParseString(t[1..])
      case None => None
      case Some(p) => Some(Parsed(String(p.value), p.rest))
    else if StartsWith(t, "true") then Some(Parsed(Bool(true), t[4..]))
    else if StartsWith(t, "false") then Some(Parsed(Bool(false), t[5..]))
    else if StartsWith(t, "null") then Some(Parsed(Null, t[4..]))
    else ParseNumber(t)
  }

  /** The rest of an array, after its opening bracket. */
  function ParseArray(s: string): (r: Option<Parsed<Value>>)
    ensures r.Some? ==> |r.value.rest| < |s|
    decreases |s|, 2
  {
    var t := SkipWhitespace(s);
    if t != [] && t[0] == ']' then Some(Parsed(Array([]), t[1..]))
    else
      match ParseElements(s)
      case None => None
      case Some(p) => Some(Parsed(Array(p.value), p.rest))
  }

  /** One or more values separated by commas, up to and including the closing bracket. */
  function ParseElements(s: string): (r: Option<Parsed<seq<Value>>>)
    ensures r.Some? ==> |r.value.rest| < |s|
    decreases |s|, 1
  {
    match ParseValue(s)
    case None => None
    case Some(first) =>
      var t := SkipWhitespace(first.rest);
      if t == [] then None
      else if t[0] == ']' then Some(Parsed([first.value], t[1..]))
      else if t[0] == ',' then
        match ParseElements(t[1..])
        case None => None
        case Some(more) => Some(Parsed([first.value] + more.value, more.rest))
      else None
  }

  /** The rest of an object, after its opening brace. */
  function ParseObject(s: string): (r: Option<Parsed<Value>>)
    ensures r.Some? ==> |r.value.rest| < |s|
    decreases |s|, 2
  {
    var t := SkipWhitespace(s);
    if t != [] && t[0] == '}' then Some(Parsed(Object([]), t[1..]))
    else
      match ParseMembers(s)
      case None => None
      case Some(p) => Some(Parsed(Object(p.value), p.rest))
  }

  /** One or more `key: value` members separated by commas, up to and including the closing brace. */
  function ParseMembers(s: string): (r: Option<Parsed<seq<Member>>>)
    ensures r.Some? ==> |r.value.rest| < |s|
    decreases |s|, 1
  {
    var t := SkipWhitespace(s);
    if t == [] || t[0] != '"' then None
    else
      match ParseString(t[1..])
      case None => None
      case Some(key) =>
        var u := SkipWhitespace(key.rest);
        if u == [] || u[0] != ':' then None
        else
          match ParseValue(u[1..])
          case None => None
          case Some(first) =>
            var w := SkipWhitespace(first.rest);
            var m := Member(key.value, first.value);
            if w == [] then None
            else if w[0] == '}' then Some(Parsed([m], w[1..]))
            else if w[0] == ',' then
              match ParseMembers(w[1..])
              case None => None
              case Some(more) => Some(Parsed([m] + more.value, more.rest))
            else None
  }

  /** `JSON.parse`: one value, with nothing but whitespace around it. */
  function Parse(text: string): (r: Option<Value>)
    ensures r.Some? ==> exists i :: 0 <= i < |text| && !IsWhitespace(text[i])
  {
    SkipWhitespaceSuffix(text);
    match ParseValue(text)
    case None => None
    case Some(p) => if SkipWhitespace(p.rest) == [] then Some(p.value) else None
  }

  // ---------------------------------------------------------------------
  // Property access, as `value?.key` reads a parsed value

  /** The index of the last member with that key, or -1 when there is none. */
  function LastIndex(ms: seq<Member>, key: string): (i: int)
    ensures -1 <= i < |ms|
    ensures i >= 0 ==> ms[i].key == key && forall j :: i < j < |ms| ==> ms[j].key != key
    ensures i < 0 ==> forall j :: 0 <= j < |ms| ==> ms[j].key != key
  {
    if ms == [] then -1
    else if ms[|ms| - 1].key == key then |ms| - 1
    else LastIndex(ms[..|ms| - 1], key)
  }

  /** The last member with that key (the one `JSON.parse` keeps), if any. */
  function Lookup(ms: seq<Member>, key: string): (r: Option<Value>)
    ensures r.Some? <==> exists i :: 0 <= i < |ms| && ms[i].key == key
    ensures r.Some? ==> exists i :: 0 <= i < |ms| && ms[i].key == key && ms[i].value == r.value &&
                                    forall j :: i < j < |ms| ==> ms[j].key != key
  {
    var i := LastIndex(ms, key);
    if i < 0 then None else Some(ms[i].value)
  }

  /** `v?.key`: None stands for `undefined`; only an object has properties. */
  function Property(v: Option<Value>, key: string): (r: Option<Value>)
    ensures r.Some? <==> v.Some? && v.value.Object? && exists i :: 0 <= i < |v.value.members| && v.value.members[i].key == key
    ensures r.Some? ==> exists i :: 0 <= i < |v.value.members| && v.value.members[i] == Member(key, r.value)
  {
    match v
    case Some(Object(ms)) => Lookup(ms, key)
    case _ => None
  }

  /** JavaScript truthiness of a property read; `undefined` is falsy. */
  function Truthy(v: Option<Value>): (b: bool)
    ensures b <==> v !in {None, Some(Null), Some(Bool(false)), Some(Number(0)), Some(String(""))}
  {
    match v
    case None => false
    case Some(Null) => false
    case Some(Bool(b)) => b
    case Some(Number(n)) => n != 0
    case Some(String(s)) => s != ""
    case Some(_) => true
  }

  // ---------------------------------------------------------------------
  // Parse reads back what Stringify writes

  lemma {:induction false} DigitRunOfDigits(d: string, rest: string)
    requires forall i :: 0 <= i < |d| ==> IsDigit(d[i])
    requires rest == [] || !IsDigit(rest[0])
    ensures DigitRun(d + rest) == |d|
  {
    if d != [] {
      assert (d + rest)[1..] == d[1..] + rest;
      DigitRunOfDigits(d[1..], rest);
    }
  }

  lemma {:induction false} DigitsValueOfNatToString(n: nat)
    ensures DigitsValue(NatToString(n)) == n
  {
    if n >= 10 {
      var d := NatToString(n);
      assert d[..|d| - 1] == NatToString(n / 10);
      DigitsValueOfNatToString(n / 10);
    }
  }

  /** Digits without a leading zero, with an optional minus sign, are read back as their value. */
  lemma ParseDigits(negative: bool, d: string, rest: string)
    requires |d| >= 1 && (forall i :: 0 <= i < |d| ==> IsDigit(d[i])) && (d[0] == '0' ==> |d| == 1)
    requires rest == [] || !(IsDigit(rest[0]) || rest[0] == '.' || rest[0] == 'e' || rest[0] == 'E')
    ensures ParseNumber((if negative then "-" + d else d) + rest) ==
              Some(Parsed(Number(if negative then -(DigitsValue(d) as int) else DigitsValue(d)), rest))
  {
    DigitRunOfDigits(d, rest);
    assert (d + rest)[..|d|] == d;
    assert (d + rest)[|d|..] == rest;
    ParseNumberSteps(negative, d, rest);
  }

  /** The steps of ParseNumber on an optional sign, digits and what follows them. */
  lemma ParseNumberSteps(negative: bool, d: string, rest: string)
    requires |d| >= 1 && forall i :: 0 <= i < |d| ==> IsDigit(d[i])
    requires d[0] == '0' ==> |d| == 1
    requires DigitRun(d + rest) == |d| && (d + rest)[..|d|] == d && (d + rest)[|d|..] == rest
    requires rest == [] || !(rest[0] == '.' || rest[0] == 'e' || rest[0] == 'E')
    ensures ParseNumber((if negative then "-" + d else d) + rest) ==
              Some(Parsed(Number(if negative then -(DigitsValue(d) as int) else DigitsValue(d)), rest))
  {
    var s := (if negative then "-" + d else d) + rest;
    if negative {
      assert s[0] == '-' && s[1..] == d + rest;
    } else {
      assert s == d + rest && s[0] == d[0];
    }
  }

  /** An integer is read back when what follows cannot continue a number. */
  lemma ParseIntToString(n: int, rest: string)
    requires rest == [] || !(IsDigit(rest[0]) || rest[0] == '.' || rest[0] == 'e' || rest[0] == 'E')
    ensures ParseNumber(IntToString(n) + rest) == Some(Parsed(Number(n), rest))
  {
    var m: nat := if n < 0 then -n else n;
    ParseSignedNat(n < 0, m, rest);
  }

  /** A natural number with an optional minus sign is read back. */
  lemma ParseSignedNat(negative: bool, m: nat, rest: string)
    requires rest == [] || !(IsDigit(rest[0]) || rest[0] == '.' || rest[0] == 'e' || rest[0] == 'E')
    ensures ParseNumber((if negative then "-" + NatToString(m) else NatToString(m)) + rest) ==
              Some(Parsed(Number(if negative then -(m as int) else m), rest))
  {
    ParseDigits(negative, NatToString(m), rest);
    DigitsValueOfNatToString(m);
  }

  lemma HexDigitValue(d: int)
    requires 0 <= d < 16
    ensures HexValue(HexDigit(d)) == Some(d)
  {
  }

  /** A control character written as \u00xx reads back as itself. */
  lemma ParseEscapeControl(c: char, t: string)
    requires c < ' ' && c != '\U{8}' && c != '\U{C}' && c != '\n' && c != '\r' && c != '\t'
    ensures ParseEscape(EscapeChar(c)[1..] + t) == Some((c, 5))
  {
    var hi, lo := c as int / 16, c as int % 16;
    HexDigitValue(hi);
    HexDigitValue(lo);
    var e := EscapeChar(c)[1..] + t;
    assert EscapeChar(c)[1..] == "u00" + [HexDigit(hi), HexDigit(lo)];
    assert e[1..][0] == '0' && e[1..][1] == '0' && e[1..][2] == HexDigit(hi) && e[1..][3] == HexDigit(lo);
    assert Hex4(e[1..]) == Some(c as int);
  }

  /** One escaped character, then whatever the rest of the body reads as. */
  lemma ParseEscapeChar(c: char, t: string)
    requires ParseString(t).Some?
    ensures ParseString(EscapeChar(c) + t) == Some(Parsed([c] + ParseString(t).value.value, ParseString(t).value.rest))
  {
    var text := EscapeChar(c) + t;
    if c == '"' || c == '\\' || c == '\U{8}' || c == '\U{C}' || c == '\n' || c == '\r' || c == '\t' {
      assert |EscapeChar(c)| == 2 && text[0] == '\\';
      assert ParseEscape(text[1..]) == Some((c, 1));
      assert text[2..] == t;
    } else if c < ' ' {
      assert text[0] == '\\' && text[1..] == EscapeChar(c)[1..] + t;
      ParseEscapeControl(c, t);
      assert text[6..] == t;
    } else {
      assert text[1..] == t;
    }
  }

  /** The body of a string literal reads back as the string. */
  lemma {:induction false} ParseEscaped(s: string, rest: string)
    ensures ParseString(Escape(s) + "\"" + rest) == Some(Parsed(s, rest))
  {
    if s == [] {
      var text := Escape(s) + "\"" + rest;
      assert text == "\"" + rest;
      assert text[0] == '"' && text[1..] == rest;
    } else {
      var t := Escape(s[1..]) + "\"" + rest;
      ParseEscaped(s[1..], rest);
      assert Escape(s) == EscapeChar(s[0]) + Escape(s[1..]);
      assert Escape(s) + "\"" + rest == EscapeChar(s[0]) + t;
      ParseEscapeChar(s[0], t);
      assert [s[0]] + s[1..] == s;
    }
  }

  /** What may follow a value in the text Stringify writes: nothing, a comma or a closing bracket or brace. */
  predicate Delimits(rest: string)
  {
    rest == [] || rest[0] == ',' || rest[0] == ']' || rest[0] == '}'
  }

  lemma {:induction false} StringifyStart(v: Value)
    ensures |Stringify(v)| > 0
    ensures var c := Stringify(v)[0]; !IsWhitespace(c) && c != ']' && c != '}' && c != ','
  {
    match v
    case Number(n) =>
      assert IsDigit(NatToString(if n < 0 then -n else n)[0]);
    case _ =>
  }

  lemma NotStartsWith(t: string, prefix: string)
    requires |prefix| > 0 && t != [] && t[0] != prefix[0]
    ensures !StartsWith(t, prefix)
  {
    if |prefix| <= |t| {
      assert t[..|prefix|][0] == t[0];
    }
  }

  /** Text that starts with a character other than whitespace is what SkipWhitespace leaves. */
  lemma SkipNothing(t: string)
    requires t != [] && !IsWhitespace(t[0])
    ensures SkipWhitespace(t) == t
  {
  }

  lemma ParseStringifyLiteral(v: Value, rest: string)
    requires v.Null? || v.Bool?
    ensures ParseValue(Stringify(v) + rest) == Some(Parsed(v, rest))
  {
    var t := Stringify(v) + rest;
    SkipNothing(t);
    var k := |Stringify(v)|;
    assert t[..k] == Stringify(v) && t[k..] == rest;
    if v == Bool(false) || v == Null {
      NotStartsWith(t, "true");
    }
    if v == Null {
      NotStartsWith(t, "false");
    }
  }

  lemma ParseStringifyNumber(n: int, rest: string)
    requires Delimits(rest)
    ensures ParseValue(Stringify(Number(n)) + rest) == Some(Parsed(Number(n), rest))
  {
    var t := Stringify(Number(n)) + rest;
    StringifyStart(Number(n));
    SkipNothing(t);
    assert IsDigit(NatToString(if n < 0 then -n else n)[0]);
    assert t[0] == '-' || IsDigit(t[0]);
    NotStartsWith(t, "true");
    NotStartsWith(t, "false");
    NotStartsWith(t, "null");
    ParseIntToString(n, rest);
  }

  lemma ParseStringifyString(str: string, rest: string)
    ensures ParseValue(Stringify(String(str)) + rest) == Some(Parsed(String(str), rest))
  {
    var t := Stringify(String(str)) + rest;
    SkipNothing(t);
    assert t[1..] == Escape(str) + "\"" + rest;
    ParseEscaped(str, rest);
  }

  lemma {:induction false} ParseStringifyValue(v: Value, rest: string)
    requires Delimits(rest)
    ensures ParseValue(Stringify(v) + rest) == Some(Parsed(v, rest))
    decreases v, 1
  {
    match v
    case Null => ParseStringifyLiteral(v, rest);
    case Bool(_) => ParseStringifyLiteral(v, rest);
    case Number(n) => ParseStringifyNumber(n, rest);
    case String(str) => ParseStringifyString(str, rest);
    case Array(items) => ParseStringifyArray(items, rest);
    case Object(ms) => ParseStringifyObject(ms, rest);
  }

  // One step of the parser at a time

  lemma ParseValueOpen(t: string)
    requires t != [] && (t[0] == '[' || t[0] == '{')
    ensures ParseValue(t) == if t[0] == '[' then ParseArray(t[1..]) else ParseObject(t[1..])
  {
    SkipNothing(t);
  }

  lemma ParseArrayEmpty(s: string)
    requires s != [] && s[0] == ']'
    ensures ParseArray(s) == Some(Parsed(Array([]), s[1..]))
  {
    SkipNothing(s);
  }

  lemma ParseArrayItems(s: string)
    requires s != [] && !IsWhitespace(s[0]) && s[0] != ']' && ParseElements(s).Some?
    ensures ParseArray(s) == Some(Parsed(Array(ParseElements(s).value.value), ParseElements(s).value.rest))
  {
    SkipNothing(s);
  }

  lemma ParseObjectEmpty(s: string)
    requires s != [] && s[0] == '}'
    ensures ParseObject(s) == Some(Parsed(Object([]), s[1..]))
  {
    SkipNothing(s);
  }

  lemma ParseObjectMembers(s: string)
    requires s != [] && s[0] == '"' && ParseMembers(s).Some?
    ensures ParseObject(s) == Some(Parsed(Object(ParseMembers(s).value.value), ParseMembers(s).value.rest))
  {
    SkipNothing(s);
  }

  lemma ParseElementsStep(s: string, first: Parsed<Value>, more: Option<Parsed<seq<Value>>>)
    requires ParseValue(s) == Some(first)
    requires first.rest != [] && (first.rest[0] == ']' || first.rest[0] == ',')
    requires first.rest[0] == ',' ==> more.Some? && ParseElements(first.rest[1..]) == more
    ensures ParseElements(s) ==
              if first.rest[0] == ']' then Some(Parsed([first.value], first.rest[1..]))
              else Some(Parsed([first.value] + more.value.value, more.value.rest))
  {
    SkipNothing(first.rest);
  }

  lemma ParseMembersStep(s: string, key: Parsed<string>, first: Parsed<Value>, more: Option<Parsed<seq<Member>>>)
    requires s != [] && s[0] == '"' && ParseString(s[1..]) == Some(key)
    requires key.rest != [] && key.rest[0] == ':' && ParseValue(key.rest[1..]) == Some(first)
    requires first.rest != [] && (first.rest[0] == '}' || first.rest[0] == ',')
    requires first.rest[0] == ',' ==> more.Some? && ParseMembers(first.rest[1..]) == more
    ensures ParseMembers(s) ==
              if first.rest[0] == '}' then Some(Parsed([Member(key.value, first.value)], first.rest[1..]))
              else Some(Parsed([Member(key.value, first.value)] + more.value.value, more.value.rest))
  {
    SkipNothing(s);
    SkipNothing(key.rest);
    SkipNothing(first.rest);
  }

  // The shape of the text Stringify writes for arrays and objects

  lemma ArrayText(items: seq<Value>, rest: string)
    ensures var t, inner := Stringify(Array(items)) + rest, StringifyItems(items) + "]" + rest;
            t != [] && t[0] == '[' && t[1..] == inner && inner != [] &&
            (items == [] ==> inner[0] == ']' && inner[1..] == rest) &&
            (items != [] ==> !IsWhitespace(inner[0]) && inner[0] != ']')
  {
    var inner := StringifyItems(items) + "]" + rest;
    assert Stringify(Array(items)) + rest == "[" + inner;
    if items == [] {
      assert inner == "]" + rest;
    } else {
      StringifyStart(items[0]);
      assert inner[0] == Stringify(items[0])[0];
    }
  }

  lemma ObjectText(ms: seq<Member>, rest: string)
    ensures var t, inner := Stringify(Object(ms)) + rest, StringifyMembers(ms) + "}" + rest;
            t != [] && t[0] == '{' && t[1..] == inner && inner != [] &&
            (ms == [] ==> inner[0] == '}' && inner[1..] == rest) &&
            (ms != [] ==> inner[0] == '"')
  {
    var inner := StringifyMembers(ms) + "}" + rest;
    assert Stringify(Object(ms)) + rest == "{" + inner;
    if ms == [] {
      assert inner == "}" + rest;
    }
  }

  /** The text after a value inside an array or an object: a comma and more, or the closing character. */
  function After(close: char, more: string, last: bool, rest: string): string
  {
    if last then [close] + rest else "," + (more + [close] + rest)
  }

  lemma AfterShape(close: char, more: string, last: bool, rest: string)
    ensures var a := After(close, more, last, rest);
            a != [] && a[0] == (if last then close else ',') &&
            a[1..] == if last then rest else more + [close] + rest
  {
  }

  lemma Regroup(a: string, b: string, c: string, d: string, e: string)
    ensures a + b + c + d + e == a + (b + (c + d + e))
  {
  }

  lemma ItemsText(items: seq<Value>, rest: string)
    requires |items| > 0
    ensures StringifyItems(items) + "]" + rest ==
              Stringify(items[0]) + After(']', StringifyItems(items[1..]), |items| == 1, rest)
  {
    if |items| == 1 {
      assert StringifyItems(items) == Stringify(items[0]);
    } else {
      assert StringifyItems(items) == Stringify(items[0]) + "," + StringifyItems(items[1..]);
      Regroup(Stringify(items[0]), ",", StringifyItems(items[1..]), "]", rest);
    }
  }

  lemma MemberShape(e: string, v: string, after: string)
    ensures var text, colon := "\"" + e + "\"" + ":" + v + after, ":" + v + after;
            text != [] && text[0] == '"' && text[1..] == e + "\"" + colon &&
            colon != [] && colon[0] == ':' && colon[1..] == v + after
  {
    var text, colon := "\"" + e + "\"" + ":" + v + after, ":" + v + after;
    assert text == "\"" + (e + "\"" + colon);
  }

  lemma MembersText(ms: seq<Member>, rest: string)
    requires |ms| > 0
    ensures var text := StringifyMembers(ms) + "}" + rest;
            var colon := ":" + Stringify(ms[0].value) + After('}', StringifyMembers(ms[1..]), |ms| == 1, rest);
            text != [] && text[0] == '"' && text[1..] == Escape(ms[0].key) + "\"" + colon &&
            colon != [] && colon[0] == ':' && colon[1..] == Stringify(ms[0].value) + After('}', StringifyMembers(ms[1..]), |ms| == 1, rest)
  {
    var e, v := Escape(ms[0].key), Stringify(ms[0].value);
    var head := "\"" + e + "\"" + ":" + v;
    var after := After('}', StringifyMembers(ms[1..]), |ms| == 1, rest);
    assert StringifyMembers(ms) + "}" + rest == head + after by {
      if |ms| == 1 {
        assert StringifyMembers(ms) == head;
        assert head + "}" + rest == head + after;
      } else {
        assert StringifyMembers(ms) == head + "," + StringifyMembers(ms[1..]);
        Regroup(head, ",", StringifyMembers(ms[1..]), "}", rest);
      }
    }
    MemberShape(e, v, after);
  }

  /** The text of an object's members opens with the first key, read back, then its colon. */
  lemma MemberHead(ms: seq<Member>, rest: string)
    requires |ms| > 0
    ensures var text := StringifyMembers(ms) + "}" + rest;
            var colon := ":" + Stringify(ms[0].value) + After('}', StringifyMembers(ms[1..]), |ms| == 1, rest);
            text != [] && text[0] == '"' && ParseString(text[1..]) == Some(Parsed(ms[0].key, colon)) &&
            colon != [] && colon[0] == ':' && colon[1..] == Stringify(ms[0].value) + After('}', StringifyMembers(ms[1..]), |ms| == 1, rest)
  {
    MembersText(ms, rest);
    ParseEscaped(ms[0].key, ":" + Stringify(ms[0].value) + After('}', StringifyMembers(ms[1..]), |ms| == 1, rest));
  }

  lemma {:induction false} ParseStringifyArray(items: seq<Value>, rest: string)
    requires Delimits(rest)
    ensures ParseValue(Stringify(Array(items)) + rest) == Some(Parsed(Array(items), rest))
    decreases items, 2
  {
    var t, inner := Stringify(Array(items)) + rest, StringifyItems(items) + "]" + rest;
    ArrayText(items, rest);
    ParseValueOpen(t);
    if items == [] {
      ParseArrayEmpty(inner);
    } else {
      ParseStringifyItems(items, rest);
      ParseArrayItems(inner);
    }
  }

  lemma {:induction false} ParseStringifyObject(ms: seq<Member>, rest: string)
    requires Delimits(rest)
    ensures ParseValue(Stringify(Object(ms)) + rest) == Some(Parsed(Object(ms), rest))
    decreases ms, 2
  {
    var t, inner := Stringify(Object(ms)) + rest, StringifyMembers(ms) + "}" + rest;
    ObjectText(ms, rest);
    ParseValueOpen(t);
    if ms == [] {
      ParseObjectEmpty(inner);
    } else {
      ParseStringifyMembers(ms, rest);
      ParseObjectMembers(inner);
    }
  }

  lemma {:induction false} ParseStringifyItems(items: seq<Value>, rest: string)
    requires |items| > 0 && Delimits(rest)
    ensures ParseElements(StringifyItems(items) + "]" + rest) == Some(Parsed(items, rest))
    decreases items, 0
  {
    var text := StringifyItems(items) + "]" + rest;
    var last := |items| == 1;
    var after := After(']', StringifyItems(items[1..]), last, rest);
    ItemsText(items, rest);
    AfterShape(']', StringifyItems(items[1..]), last, rest);
    ParseStringifyValue(items[0], after);
    if last {
      ParseElementsStep(text, Parsed(items[0], after), None);
      assert [items[0]] == items;
    } else {
      ParseStringifyItems(items[1..], rest);
      ParseElementsStep(text, Parsed(items[0], after), Some(Parsed(items[1..], rest)));
      assert [items[0]] + items[1..] == items;
    }
  }

  lemma {:induction false} ParseStringifyMembers(ms: seq<Member>, rest: string)
    requires |ms| > 0 && Delimits(rest)
    ensures ParseMembers(StringifyMembers(ms) + "}" + rest) == Some(Parsed(ms, rest))
    decreases ms, 0
  {
    var text := StringifyMembers(ms) + "}" + rest;
    var key, value := ms[0].key, ms[0].value;
    var last := |ms| == 1;
    var after := After('}', StringifyMembers(ms[1..]), last, rest);
    var colon := ":" + Stringify(value) + after;
    MemberHead(ms, rest);
    AfterShape('}', StringifyMembers(ms[1..]), last, rest);
    ParseStringifyValue(value, after);
    if last {
      ParseMembersStep(text, Parsed(key, colon), Parsed(value, after), None);
      assert [Member(key, value)] == ms;
    } else {
      ParseStringifyMembers(ms[1..], rest);
      ParseMembersStep(text, Parsed(key, colon), Parsed(value, after), Some(Parsed(ms[1..], rest)));
      assert [Member(key, value)] + ms[1..] == ms;
    }
  }

  /** `JSON.parse(JSON.stringify(v))` gives back `v`, for every value of the model. */
  lemma ParseStringify(v: Value)
    ensures Parse(Stringify(v)) == Some(v)
  {
    ParseStringifyValue(v, []);
    assert Stringify(v) + [] == Stringify(v);
  }
}
