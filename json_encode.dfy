/**
  The text `json.dumps(payload, sort_keys=True, separators=(",", ":"))`
  produces (HEALTHCARE.py:35): compact separators, dict keys in sorted
  order at every level, and the module's default `ensure_ascii=True`
  escaping, so that the text is always ASCII.
 */
module JsonEncode {
  import opened Utf8
  import opened JsonValue

  /** A lower-case hexadecimal digit. */
  function HexDigit(d: nat): (c: char)
    requires d < 16
    ensures ('0' <= c <= '9' && c as int - '0' as int == d) || ('a' <= c <= 'f' && c as int - 'a' as int + 10 == d)
  {
    if d < 10 then ('0' as int + d) as char else ('a' as int + d - 10) as char
  }

  /** Four lower-case hexadecimal digits, as in the `\u{0:04x}` escape. */
  function Hex4(n: nat): (r: string)
    requires n < 0x10000
    ensures |r| == 4
  {
    var a := n / 16;
    var b := a / 16;
    var c := b / 16;
    [HexDigit(c), HexDigit(b % 16), HexDigit(a % 16), HexDigit(n % 16)]
  }

  /** Printable ASCII, from space to tilde. */
  predicate Printable(c: char)
  {
    ' ' <= c <= '~'
  }

  /** The first half of the UTF-16 surrogate pair of a character above 0xFFFF. */
  function HighSurrogate(c: char): (u: nat)
    requires c as int >= 0x10000
    ensures 0xD800 <= u < 0xDC00
  {
    0xD800 + (c as int - 0x10000) / 0x400
  }

  /** The second half of the UTF-16 surrogate pair of a character above 0xFFFF. */
  function LowSurrogate(c: char): (u: nat)
    requires c as int >= 0x10000
    ensures 0xDC00 <= u < 0xE000
  {
    0xDC00 + (c as int - 0x10000) % 0x400
  }

  /**
    The escape of one character under `ensure_ascii=True`: quote and
    backslash get a backslash, five control characters have short forms,
    other printable ASCII stands for itself, every other character below
    0x10000 becomes `\uXXXX`, and a character above that becomes the
    `\uXXXX\uXXXX` surrogate pair.
   */
  function EscapeChar(c: char): (r: string)
    ensures r != []
    ensures r[0] != '"'
    ensures r[0] == '\\' || (r == [c] && Printable(c))
  {
    if c == '"' then "\\\""
    else if c == '\\' then "\\\\"
    else if c == 8 as char then "\\b"
    else if c == 12 as char then "\\f"
    else if c == '\n' then "\\n"
    else if c == '\r' then "\\r"
    else if c == '\t' then "\\t"
    else if Printable(c) then [c]
    else if c as int < 0x10000 then "\\u" + Hex4(c as int)
    else "\\u" + Hex4(HighSurrogate(c)) + "\\u" + Hex4(LowSurrogate(c))
  }

  /** The escaped characters of a text, without the enclosing quotes. */
  function Escape(s: string): (r: string)
    ensures |r| >= |s|
  {
    if s == [] then [] else EscapeChar(s[0]) + Escape(s[1..])
  }

  /** A JSON string literal. */
  function Quote(s: string): (r: string)
    ensures |r| >= 2 && r[0] == '"'
  {
    "\"" + Escape(s) + "\""
  }

  predicate IsDigit(c: char)
  {
    '0' <= c <= '9'
  }

  /** The decimal digit of a value below ten. */
  function DigitChar(d: nat): (c: char)
    requires d < 10
    ensures IsDigit(c) && c as int - '0' as int == d
  {
    ('0' as int + d) as char
  }

  /** The decimal digits of a natural number, most significant first. */
  function NatText(n: nat): (r: string)
    ensures r != []
  {
    if n < 10 then [DigitChar(n)]
    else NatText(n / 10) + [DigitChar(n % 10)]
  }

  /** Every character of the text of a natural number is a decimal digit. */
  lemma {:induction false} NatTextDigits(n: nat)
    ensures forall i :: 0 <= i < |NatText(n)| ==> IsDigit(NatText(n)[i])
  {
    if n >= 10 {
      NatTextDigits(n / 10);
    }
  }

  /** Python's `repr` of an int: a minus sign, then the digits of the magnitude. */
  function IntText(n: int): (r: string)
    ensures r != []
    ensures (r[0] == '-') == (n < 0)
    ensures r[0] == '-' || IsDigit(r[0])
  {
    if n < 0 then "-" + NatText(-n)
    else
      NatTextDigits(n);
      NatText(n)
  }

  /** A character that can begin the text of a value. */
  predicate StartsValue(c: char)
  {
    c == 'n' || c == 't' || c == 'f' || c == '"' || c == '[' || c == '{' || c == '-' || IsDigit(c)
  }

  /** The compact, key-sorted JSON text of a value. */
  function Dumps(v: Value): (r: string)
    ensures r != [] && StartsValue(r[0])
    decreases v, 1
  {
    match v
    case Null => "null"
    case Bool(b) => if b then "true" else "false"
    case Int(n) => IntText(n)
    case Str(s) => Quote(s)
    case List(items) => "[" + JoinItems(v, items) + "]"
    case Dict(m) =>
      SortedKeysSpec(m.Keys);
      "{" + JoinFields(v, SortedKeys(m.Keys)) + "}"
  }

  /** The items of a list, separated by commas. */
  function JoinItems(parent: Value, items: seq<Value>): (r: string)
    requires forall x :: x in items ==> x < parent
    ensures items != [] ==> r != [] && StartsValue(r[0])
    decreases parent, 0, |items|
  {
    if items == [] then ""
    else
      assert items[0] in items;
      if |items| == 1 then Dumps(items[0])
      else
        assert forall x :: x in items[1..] ==> x in items;
        Dumps(items[0]) + "," + JoinItems(parent, items[1..])
  }

  /** The `"key":value` members of a dict for the given keys, separated by commas. */
  function JoinFields(parent: Value, keys: seq<string>): (r: string)
    requires parent.Dict?
    requires forall k :: k in keys ==> k in parent.fields
    ensures keys != [] ==> r != [] && r[0] == '"'
    decreases parent, 0, |keys|
  {
    if keys == [] then ""
    else
      FieldSmaller(parent.fields, keys[0]);
      var member := Quote(keys[0]) + ":" + Dumps(parent.fields[keys[0]]);
      if |keys| == 1 then member else member + "," + JoinFields(parent, keys[1..])
  }

  lemma Hex4Ascii(n: nat)
    requires n < 0x10000
    ensures IsAscii(Hex4(n))
  {
  }

  lemma BmpEscapeAscii(c: char)
    requires !Printable(c) && c as int < 0x10000
    requires c != 8 as char && c != 12 as char && c != '\n' && c != '\r' && c != '\t'
    ensures IsAscii(EscapeChar(c))
  {
    assert EscapeChar(c) == "\\u" + Hex4(c as int);
    Hex4Ascii(c as int);
    AsciiConcat("\\u", Hex4(c as int));
  }

  lemma PairEscapeAscii(c: char)
    requires 0x10000 <= c as int
    ensures IsAscii(EscapeChar(c))
  {
    assert EscapeChar(c) == "\\u" + Hex4(HighSurrogate(c)) + "\\u" + Hex4(LowSurrogate(c));
    Hex4Ascii(HighSurrogate(c));
    Hex4Ascii(LowSurrogate(c));
    AsciiConcat("\\u", Hex4(HighSurrogate(c)));
    AsciiConcat("\\u" + Hex4(HighSurrogate(c)), "\\u");
    AsciiConcat("\\u" + Hex4(HighSurrogate(c)) + "\\u", Hex4(LowSurrogate(c)));
  }

  lemma EscapeCharAscii(c: char)
    ensures IsAscii(EscapeChar(c))
  {
    if Printable(c) || c == 8 as char || c == 12 as char || c == '\n' || c == '\r' || c == '\t' {
    } else if c as int < 0x10000 {
      BmpEscapeAscii(c);
    } else {
      PairEscapeAscii(c);
    }
  }

  lemma {:induction false} EscapeAscii(s: string)
    ensures IsAscii(Escape(s))
  {
    if s != [] {
      EscapeCharAscii(s[0]);
      EscapeAscii(s[1..]);
      AsciiConcat(EscapeChar(s[0]), Escape(s[1..]));
    }
  }

  lemma QuoteAscii(s: string)
    ensures IsAscii(Quote(s))
  {
    EscapeAscii(s);
    AsciiConcat("\"", Escape(s));
    AsciiConcat("\"" + Escape(s), "\"");
  }

  lemma IntTextAscii(n: int)
    ensures IsAscii(IntText(n))
  {
    if n < 0 {
      NatTextDigits(-n);
      AsciiConcat("-", NatText(-n));
    } else {
      NatTextDigits(n);
    }
  }

  /** The canonical text is pure ASCII, so its UTF-8 encoding is one byte per character. */
  lemma {:induction false} DumpsAscii(v: Value)
    ensures IsAscii(Dumps(v))
    decreases v, 1
  {
    match v
    case Null =>
    case Bool(b) =>
    case Int(n) => IntTextAscii(n);
    case Str(s) => QuoteAscii(s);
    case List(items) =>
      JoinItemsAscii(v, items);
      AsciiConcat("[", JoinItems(v, items));
      AsciiConcat("[" + JoinItems(v, items), "]");
    case Dict(m) =>
      var keys := SortedKeys(m.Keys);
      SortedKeysSpec(m.Keys);
      JoinFieldsAscii(v, keys);
      AsciiConcat("{", JoinFields(v, keys));
      AsciiConcat("{" + JoinFields(v, keys), "}");
  }

  lemma {:induction false} JoinItemsAscii(parent: Value, items: seq<Value>)
    requires forall x :: x in items ==> x < parent
    ensures IsAscii(JoinItems(parent, items))
    decreases parent, 0, |items|
  {
    if items != [] {
      assert items[0] in items;
      DumpsAscii(items[0]);
      if |items| > 1 {
        assert forall x :: x in items[1..] ==> x in items;
        JoinItemsAscii(parent, items[1..]);
        AsciiConcat(Dumps(items[0]), ",");
        AsciiConcat(Dumps(items[0]) + ",", JoinItems(parent, items[1..]));
      }
    }
  }

  lemma {:induction false} JoinFieldsAscii(parent: Value, keys: seq<string>)
    requires parent.Dict?
    requires forall k :: k in keys ==> k in parent.fields
    ensures IsAscii(JoinFields(parent, keys))
    decreases parent, 0, |keys|
  {
    if keys != [] {
      var k := keys[0];
      FieldSmaller(parent.fields, k);
      DumpsAscii(parent.fields[k]);
      QuoteAscii(k);
      AsciiConcat(Quote(k), ":");
      AsciiConcat(Quote(k) + ":", Dumps(parent.fields[k]));
      var member := Quote(k) + ":" + Dumps(parent.fields[k]);
      if |keys| > 1 {
        JoinFieldsAscii(parent, keys[1..]);
        AsciiConcat(member, ",");
        AsciiConcat(member + ",", JoinFields(parent, keys[1..]));
      }
    }
  }
}
