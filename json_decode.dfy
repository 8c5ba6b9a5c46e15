/**
  A reader for the text that `Dumps` writes. It is the left inverse of the
  encoder: reading `Dumps(v)` gives back `v`. From that it follows that two
  values with the same canonical text are the same value, which is what
  makes the payload text a faithful input to the digest (HEALTHCARE.py:35-36).
 */
module JsonDecode {
  import opened Options
  import opened Utf8
  import opened JsonValue
  import opened JsonEncode

  predicate IsHexDigit(c: char)
  {
    '0' <= c <= '9' || 'a' <= c <= 'f'
  }

  /** The value of a lower-case hexadecimal digit. */
  function HexValue(c: char): (d: nat)
    requires IsHexDigit(c)
    ensures d < 16
  {
    if c <= '9' then c as int - '0' as int else c as int - 'a' as int + 10
  }

  /** The number written by the first four characters, if they are hexadecimal digits. */
  function ParseHex4(s: string): (r: Option<nat>)
    ensures r.Some? ==> r.value < 0x10000
  {
    if |s| >= 4 && IsHexDigit(s[0]) && IsHexDigit(s[1]) && IsHexDigit(s[2]) && IsHexDigit(s[3]) then
      Some(((HexValue(s[0]) * 16 + HexValue(s[1])) * 16 + HexValue(s[2])) * 16 + HexValue(s[3]))
    else None
  }

  lemma ParseHex4Inverse(n: nat, rest: string)
    requires n < 0x10000
    ensures ParseHex4(Hex4(n) + rest) == Some(n)
  {
    var s := Hex4(n) + rest;
    var a := n / 16;
    var b := a / 16;
    var c := b / 16;
    assert s[0] == HexDigit(c) && s[1] == HexDigit(b % 16) && s[2] == HexDigit(a % 16) && s[3] == HexDigit(n % 16);
    assert HexValue(s[0]) == c && HexValue(s[1]) == b % 16;
    assert HexValue(s[2]) == a % 16 && HexValue(s[3]) == n % 16;
    assert b == c * 16 + b % 16;
    assert a == b * 16 + a % 16;
    assert n == a * 16 + n % 16;
  }

  /** The character a two-character escape such as `\n` stands for. */
  function ShortEscapeValue(c: char): Option<char>
  {
    if c == '"' then Some('"')
    else if c == '\\' then Some('\\')
    else if c == 'b' then Some(8 as char)
    else if c == 'f' then Some(12 as char)
    else if c == 'n' then Some('\n')
    else if c == 'r' then Some('\r')
    else if c == 't' then Some('\t')
    else None
  }

  /** The character a UTF-16 surrogate pair stands for. */
  function CombineSurrogates(hi: nat, lo: nat): char
    requires 0xD800 <= hi < 0xDC00 <= lo < 0xE000
  {
    (0x10000 + (hi - 0xD800) * 0x400 + (lo - 0xDC00)) as char
  }

  lemma CombineSplit(c: char)
    requires c as int >= 0x10000
    ensures CombineSurrogates(HighSurrogate(c), LowSurrogate(c)) == c
  {
  }

  /** The low half of a surrogate pair, completing the character whose high half is `hi`. */
  function DecodeLowSurrogate(hi: nat, s: string): (r: Option<(char, string)>)
    requires 0xD800 <= hi < 0xDC00
    ensures r.Some? ==> |r.value.1| < |s|
  {
    match ParseHex4(s)
    case None => None
    case Some(lo) =>
      if lo < 0xDC00 || 0xE000 <= lo then None
      else Some((CombineSurrogates(hi, lo), s[4..]))
  }

  /** The character of a `\uXXXX` escape (the text after `\u`), or of a surrogate pair. */
  function DecodeUnicodeEscape(s: string): (r: Option<(char, string)>)
    ensures r.Some? ==> |r.value.1| < |s|
  {
    match ParseHex4(s)
    case None => None
    case Some(u) =>
      if u < 0xD800 || 0xE000 <= u then Some((u as char, s[4..]))
      else if 0xDC00 <= u || |s| < 6 || s[4] != '\\' || s[5] != 'u' then None
      else DecodeLowSurrogate(u, s[6..])
  }

  /**
    One character of a string literal, escaped or not, and the text after
    it. Fails on a control character, an unknown escape or a lone surrogate.
   */
  function DecodeChar(s: string): (r: Option<(char, string)>)
    requires s != [] && s[0] != '"'
    ensures r.Some? ==> |r.value.1| < |s|
  {
    if s[0] != '\\' then
      if s[0] as int < 0x20 then None else Some((s[0], s[1..]))
    else if |s| < 2 then None
    else if s[1] == 'u' then DecodeUnicodeEscape(s[2..])
    else
      match ShortEscapeValue(s[1])
      case None => None
      case Some(c) => Some((c, s[2..]))
  }

  /** The characters of a string literal up to its closing quote, and the text after the quote. */
  function ParseChars(s: string): (r: Option<(string, string)>)
    ensures r.Some? ==> |r.value.1| < |s|
    decreases |s|
  {
    if s == [] then None
    else if s[0] == '"' then Some(([], s[1..]))
    else
      match DecodeChar(s)
      case None => None
      case Some((c, t)) =>
        match ParseChars(t)
        case None => None
        case Some((w, rest)) => Some(([c] + w, rest))
  }

  lemma DecodeShortEscape(c: char, rest: string)
    requires c == '"' || c == '\\' || c == 8 as char || c == 12 as char || c == '\n' || c == '\r' || c == '\t'
    ensures DecodeChar(EscapeChar(c) + rest) == Some((c, rest))
  {
    var s := EscapeChar(c) + rest;
    assert |EscapeChar(c)| == 2 && s[0] == '\\' && s[2..] == rest;
  }

  lemma DecodeBmpEscape(c: char, rest: string)
    requires !Printable(c) && c as int < 0x10000
    requires c != 8 as char && c != 12 as char && c != '\n' && c != '\r' && c != '\t'
    ensures DecodeChar(EscapeChar(c) + rest) == Some((c, rest))
  {
    var s := EscapeChar(c) + rest;
    assert s == "\\u" + (Hex4(c as int) + rest);
    assert s[2..] == Hex4(c as int) + rest;
    ParseHex4Inverse(c as int, rest);
    assert DecodeUnicodeEscape(s[2..]) == Some((c, rest));
  }

  lemma DecodeLowText(hi: nat, lo: nat, rest: string)
    requires 0xD800 <= hi < 0xDC00 <= lo < 0xE000
    ensures DecodeLowSurrogate(hi, Hex4(lo) + rest) == Some((CombineSurrogates(hi, lo), rest))
  {
    ParseHex4Inverse(lo, rest);
    assert (Hex4(lo) + rest)[4..] == rest;
  }

  lemma DecodeSurrogates(hi: nat, lo: nat, rest: string)
    requires 0xD800 <= hi < 0xDC00 <= lo < 0xE000
    ensures DecodeUnicodeEscape(Hex4(hi) + "\\u" + Hex4(lo) + rest) == Some((CombineSurrogates(hi, lo), rest))
  {
    var s := Hex4(hi) + "\\u" + Hex4(lo) + rest;
    ParseHex4Inverse(hi, "\\u" + Hex4(lo) + rest);
    assert s == Hex4(hi) + ("\\u" + Hex4(lo) + rest);
    assert s[4] == '\\' && s[5] == 'u';
    assert s[6..] == Hex4(lo) + rest;
    DecodeLowText(hi, lo, rest);
  }

  lemma DecodePairEscape(c: char, rest: string)
    requires 0x10000 <= c as int
    ensures DecodeChar(EscapeChar(c) + rest) == Some((c, rest))
  {
    var hi, lo := HighSurrogate(c), LowSurrogate(c);
    var t := Hex4(hi) + "\\u" + Hex4(lo) + rest;
    var s := EscapeChar(c) + rest;
    assert EscapeChar(c) == "\\u" + Hex4(hi) + "\\u" + Hex4(lo);
    assert s == "\\u" + t;
    assert s[0] == '\\' && s[1] == 'u' && s[2..] == t;
    assert DecodeChar(s) == DecodeUnicodeEscape(t);
    DecodeSurrogates(hi, lo, rest);
    CombineSplit(c);
  }

  /** Reading the escape of a character gives back the character. */
  lemma DecodeEscapeChar(c: char, rest: string)
    ensures DecodeChar(EscapeChar(c) + rest) == Some((c, rest))
  {
    if c == '"' || c == '\\' || c == 8 as char || c == 12 as char || c == '\n' || c == '\r' || c == '\t' {
      DecodeShortEscape(c, rest);
    } else if Printable(c) {
      var s := EscapeChar(c) + rest;
      assert s[0] == c && s[1..] == rest;
    } else if c as int < 0x10000 {
      DecodeBmpEscape(c, rest);
    } else {
      DecodePairEscape(c, rest);
    }
  }

  /** A decoded character followed by the rest of a string literal. */
  lemma CharsCons(c: char, e: string, tail: string, w: string, rest: string)
    requires e != [] && e[0] != '"'
    requires DecodeChar(e + tail) == Some((c, tail))
    requires ParseChars(tail) == Some((w, rest))
    ensures ParseChars(e + tail) == Some(([c] + w, rest))
  {
  }

  /** Reading the escape of a character in front of the rest of a string literal. */
  lemma EscapeCons(c: char, tail: string, w: string, rest: string)
    requires ParseChars(tail) == Some((w, rest))
    ensures ParseChars(EscapeChar(c) + tail) == Some(([c] + w, rest))
  {
    DecodeEscapeChar(c, tail);
    CharsCons(c, EscapeChar(c), tail, w, rest);
  }

  lemma RegroupEscape(t: string, rest: string)
    requires t != []
    ensures Escape(t) + "\"" + rest == EscapeChar(t[0]) + (Escape(t[1..]) + "\"" + rest)
  {
  }

  lemma HeadTail<T>(s: seq<T>)
    requires s != []
    ensures [s[0]] + s[1..] == s
  {
  }

  /** The closing quote ends an empty string literal. */
  lemma ParseClosingQuote(rest: string)
    ensures ParseChars(Escape([]) + "\"" + rest) == Some(([], rest))
  {
    assert Escape([]) + "\"" + rest == "\"" + rest;
    assert ("\"" + rest)[1..] == rest;
  }

  /** One more escaped character in front of a literal that reads back. */
  lemma EscapeStep(t: string, rest: string)
    requires t != []
    requires ParseChars(Escape(t[1..]) + "\"" + rest) == Some((t[1..], rest))
    ensures ParseChars(Escape(t) + "\"" + rest) == Some((t, rest))
  {
    RegroupEscape(t, rest);
    EscapeCons(t[0], Escape(t[1..]) + "\"" + rest, t[1..], rest);
    HeadTail(t);
  }

  /** Reading an escaped text followed by a closing quote gives the text back. */
  lemma {:induction false} ParseEscape(t: string, rest: string)
    ensures ParseChars(Escape(t) + "\"" + rest) == Some((t, rest))
  {
    if t == [] {
      ParseClosingQuote(rest);
    } else {
      ParseEscape(t[1..], rest);
      EscapeStep(t, rest);
    }
  }

  /** The number of decimal digits at the start of a text. */
  function SpanDigits(s: string): (r: nat)
    ensures r <= |s|
  {
    if s != [] && IsDigit(s[0]) then 1 + SpanDigits(s[1..]) else 0
  }

  /** The span is the longest prefix of digits: all digits, and not followed by one. */
  lemma {:induction false} SpanDigitsSpec(s: string)
    ensures forall i :: 0 <= i < SpanDigits(s) ==> IsDigit(s[i])
    ensures SpanDigits(s) == |s| || !IsDigit(s[SpanDigits(s)])
  {
    if s != [] && IsDigit(s[0]) {
      SpanDigitsSpec(s[1..]);
    }
  }

  predicate AllDigits(s: string)
  {
    forall i :: 0 <= i < |s| ==> IsDigit(s[i])
  }

  /** The number a string of decimal digits writes. */
  function DigitsValue(ds: string): nat
    requires AllDigits(ds)
  {
    if ds == [] then 0
    else DigitsValue(ds[..|ds| - 1]) * 10 + (ds[|ds| - 1] as int - '0' as int)
  }

  lemma {:induction false} NatTextValue(n: nat)
    ensures AllDigits(NatText(n)) && DigitsValue(NatText(n)) == n
  {
    NatTextDigits(n);
    if n >= 10 {
      NatTextValue(n / 10);
      var ds := NatText(n);
      assert ds[..|ds| - 1] == NatText(n / 10);
    }
  }

  lemma {:induction false} SpanOfDigits(ds: string, rest: string)
    requires AllDigits(ds)
    requires rest == [] || !IsDigit(rest[0])
    ensures SpanDigits(ds + rest) == |ds|
  {
    if ds != [] {
      assert (ds + rest)[1..] == ds[1..] + rest;
      SpanOfDigits(ds[1..], rest);
    }
  }

  /** An optional minus sign and a run of decimal digits. */
  function ParseNumber(s: string): (r: Option<(Value, string)>)
    ensures r.Some? ==> |r.value.1| < |s|
  {
    if s != [] && s[0] == '-' then ParseMagnitude(s[1..], true) else ParseMagnitude(s, false)
  }

  /** A run of decimal digits, negated when a minus sign came before it. */
  function ParseMagnitude(body: string, negative: bool): (r: Option<(Value, string)>)
    ensures r.Some? ==> |r.value.1| < |body|
  {
    var k := SpanDigits(body);
    if k == 0 then None
    else
      SpanDigitsSpec(body);
      var n: int := DigitsValue(body[..k]);
      Some((Int(if negative then -n else n), body[k..]))
  }

  /** Reading a run of digits that the next character does not continue. */
  lemma ParseDigitRun(ds: string, rest: string, negative: bool)
    requires ds != [] && AllDigits(ds)
    requires rest == [] || !IsDigit(rest[0])
    ensures ParseMagnitude(ds + rest, negative)
      == Some((Int(if negative then -(DigitsValue(ds) as int) else DigitsValue(ds)), rest))
  {
    SpanOfDigits(ds, rest);
    assert (ds + rest)[..|ds|] == ds && (ds + rest)[|ds|..] == rest;
  }

  lemma ParseNegativeText(n: int, rest: string)
    requires n < 0
    requires rest == [] || !IsDigit(rest[0])
    ensures ParseNumber(IntText(n) + rest) == Some((Int(n), rest))
  {
    var m: nat := -n;
    assert IntText(n) == "-" + NatText(m);
    NatTextValue(m);
    MinusSign(NatText(m), rest);
    ParseDigitRun(NatText(m), rest, true);
  }

  /** A leading minus sign hands the rest of the text to the magnitude, negated. */
  lemma MinusSign(ds: string, rest: string)
    ensures ParseNumber("-" + ds + rest) == ParseMagnitude(ds + rest, true)
  {
    assert ("-" + ds + rest)[1..] == ds + rest;
  }

  lemma ParseNonNegativeText(n: int, rest: string)
    requires n >= 0
    requires rest == [] || !IsDigit(rest[0])
    ensures ParseNumber(IntText(n) + rest) == Some((Int(n), rest))
  {
    var ds := NatText(n);
    NatTextValue(n);
    assert IntText(n) + rest == ds + rest;
    assert (ds + rest)[0] == ds[0] && IsDigit(ds[0]);
    assert ParseNumber(ds + rest) == ParseMagnitude(ds + rest, false);
    ParseDigitRun(ds, rest, false);
  }

  lemma ParseIntText(n: int, rest: string)
    requires rest == [] || !IsDigit(rest[0])
    ensures ParseNumber(IntText(n) + rest) == Some((Int(n), rest))
  {
    if n < 0 {
      ParseNegativeText(n, rest);
    } else {
      ParseNonNegativeText(n, rest);
    }
  }

  /** Text that may follow a value inside or after a list or dict. */
  predicate Delimited(rest: string)
  {
    rest == [] || rest[0] == ',' || rest[0] == ']' || rest[0] == '}'
  }

  /** One JSON value at the start of a text, and the text after it. */
  function ParseValue(s: string): (r: Option<(Value, string)>)
    ensures r.Some? ==> |r.value.1| < |s|
    decreases |s|, 1
  {
    if s == [] then None
    else if s[0] == 'n' then
      if |s| >= 4 && s[..4] == "null" then Some((Null, s[4..])) else None
    else if s[0] == 't' then
      if |s| >= 4 && s[..4] == "true" then Some((Bool(true), s[4..])) else None
    else if s[0] == 'f' then
      if |s| >= 5 && s[..5] == "false" then Some((Bool(false), s[5..])) else None
    else if s[0] == '"' then
      match ParseChars(s[1..])
      case None => None
      case Some((t, rest)) => Some((Str(t), rest))
    else if s[0] == '[' then
      if |s| >= 2 && s[1] == ']' then Some((List([]), s[2..]))
      else
        match ParseItems(s[1..])
        case None => None
        case Some((items, rest)) => Some((List(items), rest))
    else if s[0] == '{' then
      if |s| >= 2 && s[1] == '}' then Some((Dict(map[]), s[2..]))
      else
        match ParseFields(s[1..])
        case None => None
        case Some((fields, rest)) => Some((Dict(fields), rest))
    else ParseNumber(s)
  }

  /** One or more comma-separated values and the closing bracket. */
  function ParseItems(s: string): (r: Option<(seq<Value>, string)>)
    ensures r.Some? ==> |r.value.1| < |s|
    decreases |s|, 2
  {
    match ParseValue(s)
    case None => None
    case Some((v, t)) =>
      if t == [] then None
      else if t[0] == ']' then Some(([v], t[1..]))
      else if t[0] != ',' then None
      else
        match ParseItems(t[1..])
        case None => None
        case Some((vs, rest)) => Some(([v] + vs, rest))
  }

  /**
    One or more comma-separated `"key":value` members and the closing
    brace; a later member with the same key wins, as in `json.loads`.
   */
  function ParseFields(s: string): (r: Option<(map<string, Value>, string)>)
    ensures r.Some? ==> |r.value.1| < |s|
    decreases |s|, 2
  {
    if s == [] || s[0] != '"' then None
    else
      match ParseChars(s[1..])
      case None => None
      case Some((k, t)) =>
        if t == [] || t[0] != ':' then None
        else
          match ParseValue(t[1..])
          case None => None
          case Some((v, u)) =>
            if u == [] then None
            else if u[0] == '}' then Some((map[k := v], u[1..]))
            else if u[0] != ',' then None
            else
              match ParseFields(u[1..])
              case None => None
              case Some((m, rest)) => Some((map[k := v] + m, rest))
  }

  /** The fields of a dict restricted to some of its keys. */
  function Restrict(m: map<string, Value>, keys: seq<string>): (r: map<string, Value>)
    requires forall k :: k in keys ==> k in m
    ensures forall k :: k in r <==> k in keys
    ensures forall k :: k in r ==> r[k] == m[k]
  {
    map k | k in keys :: m[k]
  }

  lemma ParseValueNumber(s: string)
    requires s != [] && (s[0] == '-' || IsDigit(s[0]))
    ensures ParseValue(s) == ParseNumber(s)
  {
  }

  lemma ParseStrText(t: string, rest: string)
    ensures ParseValue(Quote(t) + rest) == Some((Str(t), rest))
  {
    var s := Quote(t) + rest;
    assert s[1..] == Escape(t) + "\"" + rest;
    ParseEscape(t, rest);
  }

  /** Reading the text of a value gives back the value and leaves the rest. */
  lemma {:induction false} ParseDumps(v: Value, rest: string)
    requires Delimited(rest)
    ensures ParseValue(Dumps(v) + rest) == Some((v, rest))
    decreases v, 2
  {
    var s := Dumps(v) + rest;
    match v
    case Null =>
      assert s[..4] == "null" && s[4..] == rest;
    case Bool(b) =>
      if b {
        assert s[..4] == "true" && s[4..] == rest;
      } else {
        assert s[..5] == "false" && s[5..] == rest;
      }
    case Int(n) =>
      ParseIntText(n, rest);
      ParseValueNumber(s);
    case Str(t) =>
      ParseStrText(t, rest);
    case List(items) =>
      ParseListText(v, rest);
    case Dict(m) =>
      ParseDictText(v, rest);
  }

  lemma {:induction false} ParseListText(v: Value, rest: string)
    requires v.List? && Delimited(rest)
    ensures ParseValue(Dumps(v) + rest) == Some((v, rest))
    decreases v, 1
  {
    var s := Dumps(v) + rest;
    if v.items == [] {
      assert JoinItems(v, v.items) == "";
      assert Dumps(v) == "[]";
      assert s == "[]" + rest;
      assert s[2..] == rest;
    } else {
      var j := JoinItems(v, v.items);
      assert s == "[" + (j + "]" + rest);
      assert s[1..] == j + "]" + rest;
      ParseJoinItems(v, v.items, rest);
    }
  }

  /** The braces around the members of a non-empty dict. */
  lemma DictBraces(v: Value, body: string, rest: string)
    requires v.Dict? && body != [] && body[0] == '"'
    requires ParseFields(body) == Some((v.fields, rest))
    ensures ParseValue("{" + body) == Some((v, rest))
  {
    assert ("{" + body)[1..] == body;
  }

  lemma BracesRegroup(j: string, rest: string)
    ensures "{" + j + "}" + rest == "{" + (j + "}" + rest)
  {
  }

  lemma {:induction false} ParseDictText(v: Value, rest: string)
    requires v.Dict? && Delimited(rest)
    ensures ParseValue(Dumps(v) + rest) == Some((v, rest))
    decreases v, 1
  {
    SortedKeysSpec(v.fields.Keys);
    if v.fields == map[] {
      assert SortedKeys(v.fields.Keys) == [];
      assert Dumps(v) + rest == "{}" + rest;
      assert ("{}" + rest)[2..] == rest;
    } else {
      assert SortedKeys(v.fields.Keys) != [];
      ParseJoinFields(v, SortedKeys(v.fields.Keys), rest);
      RestrictAll(v.fields, SortedKeys(v.fields.Keys));
      var j := JoinFields(v, SortedKeys(v.fields.Keys));
      DictBraces(v, j + "}" + rest, rest);
      assert Dumps(v) == "{" + j + "}";
      BracesRegroup(j, rest);
    }
  }

  /** The last item of a list, whose text is `dx`, and the closing bracket. */
  lemma LastItem(x: Value, dx: string, rest: string)
    requires ParseValue(dx + ("]" + rest)) == Some((x, "]" + rest))
    ensures ParseItems(dx + ("]" + rest)) == Some(([x], rest))
  {
    assert ("]" + rest)[1..] == rest;
  }

  /** An item of a list, whose text is `dx`, followed by a comma and more items. */
  lemma MoreItems(x: Value, dx: string, tail: string, xs: seq<Value>, rest: string)
    requires ParseValue(dx + ("," + tail)) == Some((x, "," + tail))
    requires ParseItems(tail) == Some((xs, rest))
    ensures ParseItems(dx + ("," + tail)) == Some(([x] + xs, rest))
  {
    assert ("," + tail)[1..] == tail;
  }

  /** Regrouping the text of a last item and what follows it. */
  lemma RegroupLastItem(d: string, rest: string)
    ensures d + "]" + rest == d + ("]" + rest)
  {
  }

  /** Regrouping the text of an item, the items after it, and what follows them. */
  lemma RegroupMoreItems(d: string, j: string, rest: string)
    ensures d + "," + j + "]" + rest == d + ("," + (j + "]" + rest))
  {
  }

  lemma {:induction false} ParseJoinItems(parent: Value, items: seq<Value>, rest: string)
    requires items != []
    requires forall x :: x in items ==> x < parent
    ensures ParseItems(JoinItems(parent, items) + "]" + rest) == Some((items, rest))
    decreases parent, 0, |items|
  {
    assert items[0] in items;
    if |items| == 1 {
      ParseDumps(items[0], "]" + rest);
      LastItem(items[0], Dumps(items[0]), rest);
      RegroupLastItem(Dumps(items[0]), rest);
      assert [items[0]] == items;
    } else {
      assert forall x :: x in items[1..] ==> x in items;
      ParseJoinItems(parent, items[1..], rest);
      ParseDumps(items[0], "," + (JoinItems(parent, items[1..]) + "]" + rest));
      MoreItems(items[0], Dumps(items[0]), JoinItems(parent, items[1..]) + "]" + rest, items[1..], rest);
      RegroupMoreItems(Dumps(items[0]), JoinItems(parent, items[1..]), rest);
      HeadTail(items);
    }
  }

  /** Reading the quoted key of a member leaves the text after the closing quote. */
  lemma ParseKey(k: string, tail: string)
    ensures (Quote(k) + tail)[0] == '"'
    ensures ParseChars((Quote(k) + tail)[1..]) == Some((k, tail))
  {
    assert (Quote(k) + tail)[1..] == Escape(k) + "\"" + tail;
    ParseEscape(k, tail);
  }

  /** The last member of a dict, whose value text is `dx`, and the closing brace. */
  lemma LastField(k: string, x: Value, dx: string, rest: string)
    requires ParseValue(dx + ("}" + rest)) == Some((x, "}" + rest))
    ensures ParseFields(Quote(k) + (":" + (dx + ("}" + rest)))) == Some((map[k := x], rest))
  {
    ParseKey(k, ":" + (dx + ("}" + rest)));
    assert (":" + (dx + ("}" + rest)))[1..] == dx + ("}" + rest);
    assert ("}" + rest)[1..] == rest;
  }

  /** A member of a dict, whose value text is `dx`, followed by a comma and more members. */
  lemma MoreFields(k: string, x: Value, dx: string, more: string, m: map<string, Value>, rest: string)
    requires ParseValue(dx + ("," + more)) == Some((x, "," + more))
    requires ParseFields(more) == Some((m, rest))
    ensures ParseFields(Quote(k) + (":" + (dx + ("," + more)))) == Some((map[k := x] + m, rest))
  {
    ParseKey(k, ":" + (dx + ("," + more)));
    assert (":" + (dx + ("," + more)))[1..] == dx + ("," + more);
    assert ("," + more)[1..] == more;
  }

  lemma RestrictCons(m: map<string, Value>, keys: seq<string>)
    requires keys != []
    requires forall k :: k in keys ==> k in m
    ensures Restrict(m, keys) == map[keys[0] := m[keys[0]]] + Restrict(m, keys[1..])
  {
    assert forall k :: k in keys <==> k == keys[0] || k in keys[1..];
  }

  lemma RestrictOne(m: map<string, Value>, keys: seq<string>)
    requires |keys| == 1 && keys[0] in m
    ensures Restrict(m, keys) == map[keys[0] := m[keys[0]]]
  {
    assert forall k :: k in keys <==> k == keys[0];
  }

  lemma RestrictAll(m: map<string, Value>, keys: seq<string>)
    requires forall k :: k in keys <==> k in m
    ensures Restrict(m, keys) == m
  {
  }

  /** Regrouping the text of a last member and what follows it. */
  lemma RegroupLast(q: string, d: string, rest: string)
    ensures q + ":" + d + "}" + rest == q + (":" + (d + ("}" + rest)))
  {
  }

  /** Regrouping the text of a member, the members after it, and what follows them. */
  lemma RegroupMore(q: string, d: string, j: string, rest: string)
    ensures q + ":" + d + "," + j + "}" + rest == q + (":" + (d + ("," + (j + "}" + rest))))
  {
  }

  lemma {:induction false} ParseJoinFields(parent: Value, keys: seq<string>, rest: string)
    requires parent.Dict? && keys != []
    requires forall k :: k in keys ==> k in parent.fields
    ensures ParseFields(JoinFields(parent, keys) + "}" + rest) == Some((Restrict(parent.fields, keys), rest))
    decreases parent, 0, |keys|
  {
    FieldSmaller(parent.fields, keys[0]);
    if |keys| == 1 {
      RestrictOne(parent.fields, keys);
      ParseDumps(parent.fields[keys[0]], "}" + rest);
      LastField(keys[0], parent.fields[keys[0]], Dumps(parent.fields[keys[0]]), rest);
      RegroupLast(Quote(keys[0]), Dumps(parent.fields[keys[0]]), rest);
    } else {
      RestrictCons(parent.fields, keys);
      ParseJoinFields(parent, keys[1..], rest);
      ParseDumps(parent.fields[keys[0]], "," + (JoinFields(parent, keys[1..]) + "}" + rest));
      MoreFields(keys[0], parent.fields[keys[0]], Dumps(parent.fields[keys[0]]),
        JoinFields(parent, keys[1..]) + "}" + rest, Restrict(parent.fields, keys[1..]), rest);
      RegroupMore(Quote(keys[0]), Dumps(parent.fields[keys[0]]), JoinFields(parent, keys[1..]), rest);
    }
  }

  /** Two values with the same canonical text are equal. */
  lemma DumpsInjective(a: Value, b: Value)
    requires Dumps(a) == Dumps(b)
    ensures a == b
  {
    ParseDumps(a, []);
    ParseDumps(b, []);
    assert Dumps(a) + [] == Dumps(a) && Dumps(b) + [] == Dumps(b);
  }
}
