/**
 * `to_json` / `from_json` of `src/lib.rs`, restricted to the one schema they
 * are used with: a block object with keys "name", "modifiers", "elements",
 * each element an object with keys "name", "modifiers".
 *
 * The encoder writes the compact form (no whitespace) with keys in
 * declaration order and string literals escaped as in section 7 of RFC 8259
 * (the escape table of serde_json). The decoder reads the compact form,
 * accepts the keys of an object in any order, and fails on a missing,
 * duplicate or unknown key, on malformed input and on trailing characters.
 */
module Json {
  import opened Results
  import opened Models

  /** A decoded value and the input that follows it. */
  datatype Decoded<T> = Decoded(value: T, rest: string)

  lemma Assoc(a: string, b: string, c: string)
    ensures a + b + c == a + (b + c)
  {
  }

  lemma Regroup(a: string, b: string, c: string, d: string, e: string, f: string, g: string, rest: string)
    ensures a + b + c + d + e + f + g + rest == a + (b + (c + (d + (e + (f + (g + rest))))))
  {
  }

  lemma Assoc4(a: string, b: string, c: string, d: string)
    ensures a + b + c + d == a + (b + (c + d))
  {
  }

  lemma Regroup5(a: string, b: string, c: string, d: string, e: string)
    ensures a + b + c + d + e == a + (b + (c + (d + e)))
  {
  }

  // ---------------------------------------------------------------------
  // String literals

  /** Lower-case hexadecimal digit of n. */
  function HexDigit(n: nat): (c: char)
    requires n < 16
    ensures HexValue(c) == Some(n)
  {
    if n < 10 then (48 + n) as char else (87 + n) as char
  }

  /** The value of a hexadecimal digit of either case. */
  function HexValue(c: char): (r: Option<nat>)
    ensures r.Some? ==> r.value < 16
  {
    if '0' <= c <= '9' then Some(c as int - 48)
    else if 'a' <= c <= 'f' then Some(c as int - 87)
    else if 'A' <= c <= 'F' then Some(c as int - 55)
    else None
  }

  /** How one character appears inside a string literal. */
  function EscapeChar(c: char): string {
    if ' ' <= c && c != '"' && c != '\\' then [c]
    else if c == '"' then "\\\""
    else if c == '\\' then "\\\\"
    else if c == 8 as char then "\\b"
    else if c == '\t' then "\\t"
    else if c == '\n' then "\\n"
    else if c == 12 as char then "\\f"
    else if c == '\r' then "\\r"
    else "\\u00" + [HexDigit(c as int / 16), HexDigit(c as int % 16)]
  }

  function Escape(s: string): string
    decreases |s|
  {
    if s == [] then [] else EscapeChar(s[0]) + Escape(s[1..])
  }

  function EncodeString(s: string): string {
    "\"" + Escape(s) + "\""
  }

  /**
   * The body of a string literal as section 7 of RFC 8259 defines it:
   * unescaped characters other than the quote, the backslash and the
   * control characters, two-character escapes, and \u with four hex digits.
   */
  predicate IsStringBody(t: string)
    decreases |t|
  {
    if t == [] then true
    else if t[0] == '\\' then
      |t| >= 2 &&
      ((t[1] in "\"\\/bfnrt" && IsStringBody(t[2..])) ||
       (t[1] == 'u' && |t| >= 6 && HexValue(t[2]).Some? && HexValue(t[3]).Some?
        && HexValue(t[4]).Some? && HexValue(t[5]).Some? && IsStringBody(t[6..])))
    else t[0] != '"' && t[0] >= ' ' && IsStringBody(t[1..])
  }

  lemma HexEscapeBody(n: nat, t: string)
    requires n < 32 && IsStringBody(t)
    ensures IsStringBody(['\\', 'u', '0', '0', HexDigit(n / 16), HexDigit(n % 16)] + t)
  {
    var s := ['\\', 'u', '0', '0', HexDigit(n / 16), HexDigit(n % 16)] + t;
    assert s[6..] == t;
  }

  lemma EscapeCharBody(c: char, t: string)
    requires IsStringBody(t)
    ensures IsStringBody(EscapeChar(c) + t)
  {
    var e := EscapeChar(c);
    var s := e + t;
    if |e| == 2 {
      assert s[2..] == t;
    } else if |e| == 6 {
      var n := c as int;
      assert e == ['\\', 'u', '0', '0', HexDigit(n / 16), HexDigit(n % 16)];
      HexEscapeBody(n, t);
    } else {
      assert s[1..] == t;
    }
  }

  /** The encoder escapes everything that must be escaped. */
  lemma {:induction false} EscapeIsStringBody(s: string)
    ensures IsStringBody(Escape(s))
    decreases |s|
  {
    if s != [] {
      EscapeIsStringBody(s[1..]);
      EscapeCharBody(s[0], Escape(s[1..]));
    }
  }

  /** Four hexadecimal digits, as the code unit they spell. */
  function DecodeHex4(s: string): (r: Result<Decoded<nat>>)
    ensures r.Ok? ==> r.value.value < 0x10000 && |s| >= 4 && r.value.rest == s[4..]
  {
    if |s| < 4 then Err("EOF while parsing a string")
    else match (HexValue(s[0]), HexValue(s[1]), HexValue(s[2]), HexValue(s[3]))
      case (Some(a), Some(b), Some(c), Some(d)) => Ok(Decoded(a * 4096 + b * 256 + c * 16 + d, s[4..]))
      case _ => Err("invalid escape")
  }

  /** The character an escape stands for; `s` follows the backslash. */
  function DecodeEscape(s: string): (r: Result<Decoded<char>>)
    ensures r.Ok? ==> |r.value.rest| < |s|
  {
    if |s| == 0 then Err("EOF while parsing a string")
    else if s[0] == '"' then Ok(Decoded('"', s[1..]))
    else if s[0] == '\\' then Ok(Decoded('\\', s[1..]))
    else if s[0] == '/' then Ok(Decoded('/', s[1..]))
    else if s[0] == 'b' then Ok(Decoded(8 as char, s[1..]))
    else if s[0] == 'f' then Ok(Decoded(12 as char, s[1..]))
    else if s[0] == 'n' then Ok(Decoded('\n', s[1..]))
    else if s[0] == 'r' then Ok(Decoded('\r', s[1..]))
    else if s[0] == 't' then Ok(Decoded('\t', s[1..]))
    else if s[0] == 'u' then
      var hi :- DecodeHex4(s[1..]);
      if 0xDC00 <= hi.value < 0xE000 then Err("lone leading surrogate in hex escape")
      else if 0xD800 <= hi.value < 0xDC00 then
        var t := hi.rest;
        if |t| < 2 || t[0] != '\\' || t[1] != 'u' then Err("unexpected end of hex escape")
        else
          var lo :- DecodeHex4(t[2..]);
          if lo.value < 0xDC00 || 0xE000 <= lo.value then Err("lone leading surrogate in hex escape")
          else Ok(Decoded((0x10000 + (hi.value - 0xD800) * 0x400 + (lo.value - 0xDC00)) as char, lo.rest))
      else Ok(Decoded(hi.value as char, hi.rest))
    else Err("invalid escape")
  }

  /** One character of a string literal's body; `s` does not start with the closing quote. */
  function DecodeUnit(s: string): (r: Result<Decoded<char>>)
    requires |s| > 0
    ensures r.Ok? ==> |r.value.rest| < |s|
  {
    if s[0] == '\\' then DecodeEscape(s[1..])
    else if s[0] < ' ' then Err("control character found while parsing a string")
    else Ok(Decoded(s[0], s[1..]))
  }

  /** The body of a string literal up to and including its closing quote. */
  function DecodeChars(s: string): (r: Result<Decoded<string>>)
    ensures r.Ok? ==> |r.value.rest| < |s|
    decreases |s|
  {
    if |s| == 0 then Err("EOF while parsing a string")
    else if s[0] == '"' then Ok(Decoded([], s[1..]))
    else
      var u :- DecodeUnit(s);
      var more :- DecodeChars(u.rest);
      Ok(Decoded([u.value] + more.value, more.rest))
  }

  function DecodeString(s: string): (r: Result<Decoded<string>>)
    ensures r.Ok? ==> |r.value.rest| < |s|
  {
    if |s| > 0 && s[0] == '"' then DecodeChars(s[1..]) else Err("expected string")
  }

  /** A `\u00XX` escape of a control character reads back as that character. */
  lemma HexEscapeRoundTrip(n: nat, rest: string)
    requires n < 32
    ensures DecodeEscape(['u', '0', '0', HexDigit(n / 16), HexDigit(n % 16)] + rest) == Ok(Decoded(n as char, rest))
  {
    var t := ['u', '0', '0', HexDigit(n / 16), HexDigit(n % 16)] + rest;
    assert t[1..] == ['0', '0', HexDigit(n / 16), HexDigit(n % 16)] + rest;
    assert t[1..][4..] == rest;
    assert DecodeHex4(t[1..]) == Ok(Decoded(n, rest));
  }

  /** A two-character escape reads back as the character it stands for. */
  lemma ShortEscapeRoundTrip(c: char, rest: string)
    requires |EscapeChar(c)| == 2
    ensures DecodeUnit(EscapeChar(c) + rest) == Ok(Decoded(c, rest))
  {
    var e := EscapeChar(c);
    var s := e + rest;
    assert s[1..] == [e[1]] + rest;
    assert s[1..][1..] == rest;
  }

  lemma EscapeCharRoundTrip(c: char, rest: string)
    ensures |EscapeChar(c)| > 0 && EscapeChar(c)[0] != '"'
    ensures DecodeUnit(EscapeChar(c) + rest) == Ok(Decoded(c, rest))
  {
    var e := EscapeChar(c);
    var s := e + rest;
    if |e| == 1 {
      assert s[1..] == rest;
    } else if |e| == 2 {
      ShortEscapeRoundTrip(c, rest);
    } else {
      var n := c as int;
      assert e == ['\\'] + ['u', '0', '0', HexDigit(n / 16), HexDigit(n % 16)];
      assert s[1..] == ['u', '0', '0', HexDigit(n / 16), HexDigit(n % 16)] + rest;
      HexEscapeRoundTrip(n, rest);
    }
  }

  /** The escaped text of a non-empty string is its first character's escape, then the rest. */
  lemma EscapeSplit(x: string, rest: string)
    requires x != []
    ensures Escape(x) + "\"" + rest == EscapeChar(x[0]) + (Escape(x[1..]) + "\"" + rest)
  {
    Assoc4(EscapeChar(x[0]), Escape(x[1..]), "\"", rest);
    Assoc(Escape(x[1..]), "\"", rest);
  }

  /** One escaped character in front of a decodable string body. */
  lemma CharsCons(c: char, tail: string, more: string, rest: string)
    requires DecodeChars(tail) == Ok(Decoded(more, rest))
    ensures DecodeChars(EscapeChar(c) + tail) == Ok(Decoded([c] + more, rest))
  {
    EscapeCharRoundTrip(c, tail);
  }

  lemma {:induction false} CharsRoundTrip(x: string, rest: string)
    ensures DecodeChars(Escape(x) + "\"" + rest) == Ok(Decoded(x, rest))
    decreases |x|
  {
    if x == [] {
      assert Escape(x) + "\"" + rest == ['"'] + rest;
    } else {
      EscapeSplit(x, rest);
      CharsRoundTrip(x[1..], rest);
      CharsCons(x[0], Escape(x[1..]) + "\"" + rest, x[1..], rest);
      assert [x[0]] + x[1..] == x;
    }
  }

  /** Any string survives encoding and decoding unchanged, whatever follows it. */
  lemma StringRoundTrip(x: string, rest: string)
    ensures DecodeString(EncodeString(x) + rest) == Ok(Decoded(x, rest))
  {
    var s := EncodeString(x) + rest;
    assert s[1..] == Escape(x) + "\"" + rest;
    CharsRoundTrip(x, rest);
  }

  // ---------------------------------------------------------------------
  // Arrays

  /** Comma-separated string literals. */
  function StringItems(ss: seq<string>): string
    decreases |ss|
  {
    if ss == [] then ""
    else if |ss| == 1 then EncodeString(ss[0])
    else EncodeString(ss[0]) + "," + StringItems(ss[1..])
  }

  function EncodeStrings(ss: seq<string>): string {
    "[" + StringItems(ss) + "]"
  }

  /** String literals separated by commas, through the closing bracket. */
  function DecodeStringItems(s: string): (r: Result<Decoded<seq<string>>>)
    ensures r.Ok? ==> |r.value.rest| < |s|
    decreases |s|
  {
    var first :- DecodeString(s);
    var t := first.rest;
    if |t| == 0 then Err("EOF while parsing a list")
    else if t[0] == ']' then Ok(Decoded([first.value], t[1..]))
    else if t[0] == ',' then
      var more :- DecodeStringItems(t[1..]);
      Ok(Decoded([first.value] + more.value, more.rest))
    else Err("expected `,` or `]`")
  }

  function DecodeStrings(s: string): (r: Result<Decoded<seq<string>>>)
    ensures r.Ok? ==> |r.value.rest| < |s|
  {
    if |s| == 0 || s[0] != '[' then Err("expected array")
    else if |s| > 1 && s[1] == ']' then Ok(Decoded([], s[2..]))
    else DecodeStringItems(s[1..])
  }

  /** A list of two or more strings is its first string, a comma and the rest of the list. */
  lemma StringItemsSplit(ss: seq<string>, rest: string)
    requires |ss| > 1
    ensures StringItems(ss) + "]" + rest
            == EncodeString(ss[0]) + ("," + (StringItems(ss[1..]) + "]" + rest))
  {
    var x := EncodeString(ss[0]);
    var y := StringItems(ss[1..]);
    assert StringItems(ss) == x + "," + y;
    Regroup5(x, ",", y, "]", rest);
    Assoc(y, "]", rest);
  }

  /** The last string of a list, followed by the closing bracket. */
  lemma StringLast(x: string, rest: string)
    ensures DecodeStringItems(EncodeString(x) + ("]" + rest)) == Ok(Decoded([x], rest))
  {
    var after := "]" + rest;
    StringRoundTrip(x, after);
    assert after[1..] == rest;
  }

  /** A string followed by a comma and the decodable remainder of the list. */
  lemma StringCons(x: string, more: string, tail: seq<string>, rest: string)
    requires DecodeStringItems(more) == Ok(Decoded(tail, rest))
    ensures DecodeStringItems(EncodeString(x) + ("," + more)) == Ok(Decoded([x] + tail, rest))
  {
    var after := "," + more;
    StringRoundTrip(x, after);
    assert after[1..] == more;
  }

  lemma StringItemsLast(ss: seq<string>, rest: string)
    requires |ss| == 1
    ensures DecodeStringItems(StringItems(ss) + "]" + rest) == Ok(Decoded(ss, rest))
  {
    assert StringItems(ss) + "]" + rest == EncodeString(ss[0]) + ("]" + rest);
    StringLast(ss[0], rest);
    assert [ss[0]] == ss;
  }

  lemma {:induction false} StringItemsCons(ss: seq<string>, rest: string)
    requires |ss| > 1
    ensures DecodeStringItems(StringItems(ss) + "]" + rest) == Ok(Decoded(ss, rest))
    decreases |ss|, 0
  {
    StringItemsRoundTrip(ss[1..], rest);
    StringItemsSplit(ss, rest);
    StringCons(ss[0], StringItems(ss[1..]) + "]" + rest, ss[1..], rest);
    assert [ss[0]] + ss[1..] == ss;
  }

  lemma {:induction false} StringItemsRoundTrip(ss: seq<string>, rest: string)
    requires ss != []
    ensures DecodeStringItems(StringItems(ss) + "]" + rest) == Ok(Decoded(ss, rest))
    decreases |ss|, 1
  {
    if |ss| == 1 {
      StringItemsLast(ss, rest);
    } else {
      StringItemsCons(ss, rest);
    }
  }

  /** A list of strings survives encoding and decoding, order and contents included. */
  lemma StringsRoundTrip(ss: seq<string>, rest: string)
    ensures DecodeStrings(EncodeStrings(ss) + rest) == Ok(Decoded(ss, rest))
  {
    var s := EncodeStrings(ss) + rest;
    if ss == [] {
      assert s == "[]" + rest;
      assert s[2..] == rest;
    } else {
      assert s[1..] == StringItems(ss) + "]" + rest;
      StringItemsRoundTrip(ss, rest);
      assert StringItems(ss)[0] == '"';
    }
  }

  // ---------------------------------------------------------------------
  // Elements

  /** Characters that stand for themselves inside a string literal. */
  predicate Unescaped(k: string) {
    forall i :: 0 <= i < |k| ==> ' ' <= k[i] && k[i] != '"' && k[i] != '\\'
  }

  lemma {:induction false} EscapeUnescaped(k: string)
    requires Unescaped(k)
    ensures Escape(k) == k
    decreases |k|
  {
    if k != [] {
      assert Unescaped(k[1..]) by {
        forall i | 0 <= i < |k[1..]| ensures ' ' <= k[1..][i] && k[1..][i] != '"' && k[1..][i] != '\\' {
          assert k[1..][i] == k[i + 1];
        }
      }
      EscapeUnescaped(k[1..]);
      assert [k[0]] + k[1..] == k;
    }
  }

  /** A key that needs no escaping reads back as itself. */
  lemma KeyRoundTrip(key: string, rest: string)
    requires Unescaped(key)
    ensures DecodeString("\"" + key + "\"" + rest) == Ok(Decoded(key, rest))
  {
    EscapeUnescaped(key);
    StringRoundTrip(key, rest);
  }

  /** The field names of this schema need no escaping. */
  lemma KeysUnescaped()
    ensures Unescaped("name") && Unescaped("modifiers") && Unescaped("elements")
  {
  }

  /** `"key":value`, for a key that needs no escaping. */
  function Member(key: string, value: string): string {
    "\"" + key + "\"" + ":" + value
  }

  /** For such a key, the member text is the encoded key, a colon and the value. */
  lemma MemberEncoded(key: string, value: string)
    requires Unescaped(key)
    ensures Member(key, value) == EncodeString(key) + ":" + value
  {
    EscapeUnescaped(key);
  }

  function EncodeElement(e: BemElement): string {
    "{" + Member("name", EncodeString(e.name)) + "," + Member("modifiers", EncodeStrings(e.modifiers)) + "}"
  }

  /** The fields of an element object read so far. */
  datatype ElementFields = ElementFields(name: Option<string>, modifiers: Option<seq<string>>)

  /** The value of member `key` of an element object; `s` follows the colon. */
  function DecodeElementField(key: string, s: string, acc: ElementFields): (r: Result<Decoded<ElementFields>>)
    ensures r.Ok? ==> |r.value.rest| < |s|
  {
    if key == "name" then
      if acc.name.Some? then Err("duplicate field `name`")
      else var v :- DecodeString(s); Ok(Decoded(acc.(name := Some(v.value)), v.rest))
    else if key == "modifiers" then
      if acc.modifiers.Some? then Err("duplicate field `modifiers`")
      else var v :- DecodeStrings(s); Ok(Decoded(acc.(modifiers := Some(v.value)), v.rest))
    else Err("unknown field")
  }

  /** The members of an element object, through the closing brace. */
  function DecodeElementMembers(s: string, acc: ElementFields): (r: Result<Decoded<ElementFields>>)
    ensures r.Ok? ==> |r.value.rest| < |s|
    decreases |s|
  {
    var key :- DecodeString(s);
    if |key.rest| == 0 || key.rest[0] != ':' then Err("expected `:`")
    else
      var v :- DecodeElementField(key.value, key.rest[1..], acc);
      var t := v.rest;
      if |t| == 0 then Err("EOF while parsing an object")
      else if t[0] == '}' then Ok(Decoded(v.value, t[1..]))
      else if t[0] == ',' then DecodeElementMembers(t[1..], v.value)
      else Err("expected `,` or `}`")
  }

  function DecodeElement(s: string): (r: Result<Decoded<BemElement>>)
    ensures r.Ok? ==> |r.value.rest| < |s|
  {
    if |s| == 0 || s[0] != '{' then Err("expected object")
    else
      var fields :-
        if |s| > 1 && s[1] == '}' then Ok(Decoded(ElementFields(None, None), s[2..]))
        else DecodeElementMembers(s[1..], ElementFields(None, None));
      match fields.value
      case ElementFields(None, _) => Err("missing field `name`")
      case ElementFields(_, None) => Err("missing field `modifiers`")
      case ElementFields(Some(n), Some(m)) => Ok(Decoded(BemElement(n, m), fields.rest))
  }

  /** One member of an element object, followed by `,` or `}`. */
  lemma ElementMemberStep(key: string, value: string, t: string, acc: ElementFields, acc': ElementFields)
    requires Unescaped(key)
    requires DecodeElementField(key, value + t, acc) == Ok(Decoded(acc', t))
    requires |t| > 0 && (t[0] == ',' || t[0] == '}')
    ensures DecodeElementMembers(Member(key, value) + t, acc)
            == if t[0] == '}' then Ok(Decoded(acc', t[1..])) else DecodeElementMembers(t[1..], acc')
  {
    var after := ":" + (value + t);
    Assoc4("\"" + key + "\"", ":", value, t);
    KeyRoundTrip(key, after);
    assert after[1..] == value + t;
  }

  lemma ElementNameMember(n: string, more: string, acc: ElementFields)
    requires acc.name.None? && |more| > 0
    ensures DecodeElementMembers(Member("name", EncodeString(n)) + "," + more, acc)
            == DecodeElementMembers(more, acc.(name := Some(n)))
  {
    var t := "," + more;
    assert Member("name", EncodeString(n)) + "," + more == Member("name", EncodeString(n)) + t;
    StringRoundTrip(n, t);
    KeysUnescaped();
    ElementMemberStep("name", EncodeString(n), t, acc, acc.(name := Some(n)));
    assert t[1..] == more;
  }

  lemma ElementModifiersMember(m: seq<string>, rest: string, acc: ElementFields)
    requires acc.modifiers.None?
    ensures DecodeElementMembers(Member("modifiers", EncodeStrings(m)) + "}" + rest, acc)
            == Ok(Decoded(acc.(modifiers := Some(m)), rest))
  {
    var t := "}" + rest;
    assert Member("modifiers", EncodeStrings(m)) + "}" + rest == Member("modifiers", EncodeStrings(m)) + t;
    StringsRoundTrip(m, t);
    KeysUnescaped();
    ElementMemberStep("modifiers", EncodeStrings(m), t, acc, acc.(modifiers := Some(m)));
    assert t[1..] == rest;
  }

  /** A decoded field set with both fields present is the element they name. */
  lemma ElementFromMembers(body: string, rest: string, e: BemElement)
    requires |body| > 0 && body[0] == '"'
    requires DecodeElementMembers(body, ElementFields(None, None))
             == Ok(Decoded(ElementFields(Some(e.name), Some(e.modifiers)), rest))
    ensures DecodeElement("{" + body) == Ok(Decoded(e, rest))
  {
    var s := "{" + body;
    assert s[1..] == body;
    assert s[1] == '"';
  }

  /** An element survives encoding and decoding unchanged, whatever follows it. */
  lemma ElementRoundTrip(e: BemElement, rest: string)
    ensures DecodeElement(EncodeElement(e) + rest) == Ok(Decoded(e, rest))
  {
    var mods := Member("modifiers", EncodeStrings(e.modifiers)) + "}" + rest;
    var body := Member("name", EncodeString(e.name)) + "," + mods;
    assert EncodeElement(e) + rest == "{" + body;
    ElementModifiersMember(e.modifiers, rest, ElementFields(Some(e.name), None));
    ElementNameMember(e.name, mods, ElementFields(None, None));
    ElementFromMembers(body, rest, e);
  }

  /** Comma-separated element objects. */
  function ElementItems(es: seq<BemElement>): string
    decreases |es|
  {
    if es == [] then ""
    else if |es| == 1 then EncodeElement(es[0])
    else EncodeElement(es[0]) + "," + ElementItems(es[1..])
  }

  function EncodeElements(es: seq<BemElement>): string {
    "[" + ElementItems(es) + "]"
  }

  function DecodeElementItems(s: string): (r: Result<Decoded<seq<BemElement>>>)
    ensures r.Ok? ==> |r.value.rest| < |s|
    decreases |s|
  {
    var first :- DecodeElement(s);
    var t := first.rest;
    if |t| == 0 then Err("EOF while parsing a list")
    else if t[0] == ']' then Ok(Decoded([first.value], t[1..]))
    else if t[0] == ',' then
      var more :- DecodeElementItems(t[1..]);
      Ok(Decoded([first.value] + more.value, more.rest))
    else Err("expected `,` or `]`")
  }

  function DecodeElements(s: string): (r: Result<Decoded<seq<BemElement>>>)
    ensures r.Ok? ==> |r.value.rest| < |s|
  {
    if |s| == 0 || s[0] != '[' then Err("expected array")
    else if |s| > 1 && s[1] == ']' then Ok(Decoded([], s[2..]))
    else DecodeElementItems(s[1..])
  }

  /** A list of two or more elements is its first element, a comma and the rest of the list. */
  lemma ElementItemsSplit(es: seq<BemElement>, rest: string)
    requires |es| > 1
    ensures ElementItems(es) + "]" + rest
            == EncodeElement(es[0]) + ("," + (ElementItems(es[1..]) + "]" + rest))
  {
    var x := EncodeElement(es[0]);
    var y := ElementItems(es[1..]);
    assert ElementItems(es) == x + "," + y;
    Regroup5(x, ",", y, "]", rest);
    Assoc(y, "]", rest);
  }

  /** The last element of a list, followed by the closing bracket. */
  lemma ElementLast(e: BemElement, rest: string)
    ensures DecodeElementItems(EncodeElement(e) + ("]" + rest)) == Ok(Decoded([e], rest))
  {
    var after := "]" + rest;
    ElementRoundTrip(e, after);
    assert after[1..] == rest;
  }

  /** An element followed by a comma and the decodable remainder of the list. */
  lemma ElementCons(e: BemElement, more: string, tail: seq<BemElement>, rest: string)
    requires DecodeElementItems(more) == Ok(Decoded(tail, rest))
    ensures DecodeElementItems(EncodeElement(e) + ("," + more)) == Ok(Decoded([e] + tail, rest))
  {
    var after := "," + more;
    ElementRoundTrip(e, after);
    assert after[1..] == more;
  }

  lemma ElementItemsLast(es: seq<BemElement>, rest: string)
    requires |es| == 1
    ensures DecodeElementItems(ElementItems(es) + "]" + rest) == Ok(Decoded(es, rest))
  {
    assert ElementItems(es) + "]" + rest == EncodeElement(es[0]) + ("]" + rest);
    ElementLast(es[0], rest);
    assert [es[0]] == es;
  }

  lemma {:induction false} ElementItemsCons(es: seq<BemElement>, rest: string)
    requires |es| > 1
    ensures DecodeElementItems(ElementItems(es) + "]" + rest) == Ok(Decoded(es, rest))
    decreases |es|, 0
  {
    ElementItemsRoundTrip(es[1..], rest);
    ElementItemsSplit(es, rest);
    ElementCons(es[0], ElementItems(es[1..]) + "]" + rest, es[1..], rest);
    assert [es[0]] + es[1..] == es;
  }

  lemma {:induction false} ElementItemsRoundTrip(es: seq<BemElement>, rest: string)
    requires es != []
    ensures DecodeElementItems(ElementItems(es) + "]" + rest) == Ok(Decoded(es, rest))
    decreases |es|, 1
  {
    if |es| == 1 {
      ElementItemsLast(es, rest);
    } else {
      ElementItemsCons(es, rest);
    }
  }

  lemma ElementItemsStart(es: seq<BemElement>)
    requires es != []
    ensures |ElementItems(es)| > 0 && ElementItems(es)[0] == '{'
  {
    assert ElementItems(es) == "{" + (ElementItems(es)[1..]);
  }

  /** A list of elements survives encoding and decoding, order and contents included. */
  lemma ElementsRoundTrip(es: seq<BemElement>, rest: string)
    ensures DecodeElements(EncodeElements(es) + rest) == Ok(Decoded(es, rest))
  {
    var s := EncodeElements(es) + rest;
    if es == [] {
      assert s == "[]" + rest;
      assert s[2..] == rest;
    } else {
      var items := ElementItems(es);
      Assoc("[" + items, "]", rest);
      Assoc("[", items, "]" + rest);
      Assoc(items, "]", rest);
      assert s == "[" + (items + "]" + rest);
      assert s[1..] == ElementItems(es) + "]" + rest;
      ElementItemsRoundTrip(es, rest);
      ElementItemsStart(es);
    }
  }

  // ---------------------------------------------------------------------
  // Blocks

  function EncodeBlock(b: BemBlock): string {
    "{" + Member("name", EncodeString(b.name))
    + "," + Member("modifiers", EncodeStrings(b.modifiers))
    + "," + Member("elements", EncodeElements(b.elements)) + "}"
  }

  /** The fields of a block object read so far. */
  datatype BlockFields = BlockFields(name: Option<string>, modifiers: Option<seq<string>>, elements: Option<seq<BemElement>>)

  const NoBlockFields := BlockFields(None, None, None)

  function DecodeBlockField(key: string, s: string, acc: BlockFields): (r: Result<Decoded<BlockFields>>)
    ensures r.Ok? ==> |r.value.rest| < |s|
  {
    if key == "name" then
      if acc.name.Some? then Err("duplicate field `name`")
      else var v :- DecodeString(s); Ok(Decoded(acc.(name := Some(v.value)), v.rest))
    else if key == "modifiers" then
      if acc.modifiers.Some? then Err("duplicate field `modifiers`")
      else var v :- DecodeStrings(s); Ok(Decoded(acc.(modifiers := Some(v.value)), v.rest))
    else if key == "elements" then
      if acc.elements.Some? then Err("duplicate field `elements`")
      else var v :- DecodeElements(s); Ok(Decoded(acc.(elements := Some(v.value)), v.rest))
    else Err("unknown field")
  }

  function DecodeBlockMembers(s: string, acc: BlockFields): (r: Result<Decoded<BlockFields>>)
    ensures r.Ok? ==> |r.value.rest| < |s|
    decreases |s|
  {
    var key :- DecodeString(s);
    if |key.rest| == 0 || key.rest[0] != ':' then Err("expected `:`")
    else
      var v :- DecodeBlockField(key.value, key.rest[1..], acc);
      var t := v.rest;
      if |t| == 0 then Err("EOF while parsing an object")
      else if t[0] == '}' then Ok(Decoded(v.value, t[1..]))
      else if t[0] == ',' then DecodeBlockMembers(t[1..], v.value)
      else Err("expected `,` or `}`")
  }

  /** The block a complete set of fields names; a missing field is an error, checked in field order. */
  function BlockOfFields(f: BlockFields): (r: Result<BemBlock>)
    ensures r.Ok? <==> f.name.Some? && f.modifiers.Some? && f.elements.Some?
    ensures r.Ok? ==> r.value == BemBlock(f.name.value, f.modifiers.value, f.elements.value)
    ensures f.name.None? ==> r == Err("missing field `name`")
    ensures f.name.Some? && f.modifiers.None? ==> r == Err("missing field `modifiers`")
    ensures f.name.Some? && f.modifiers.Some? && f.elements.None? ==> r == Err("missing field `elements`")
  {
    match f
    case BlockFields(None, _, _) => Err("missing field `name`")
    case BlockFields(_, None, _) => Err("missing field `modifiers`")
    case BlockFields(_, _, None) => Err("missing field `elements`")
    case BlockFields(Some(n), Some(m), Some(es)) => Ok(BemBlock(n, m, es))
  }

  function DecodeBlock(s: string): (r: Result<Decoded<BemBlock>>)
    ensures r.Ok? ==> |r.value.rest| < |s|
  {
    if |s| == 0 || s[0] != '{' then Err("expected object")
    else
      var fields :-
        if |s| > 1 && s[1] == '}' then Ok(Decoded(NoBlockFields, s[2..]))
        else DecodeBlockMembers(s[1..], NoBlockFields);
      var b :- BlockOfFields(fields.value);
      Ok(Decoded(b, fields.rest))
  }

  /** One member of a block object, followed by `,` or `}`. */
  lemma BlockMemberStep(key: string, value: string, t: string, acc: BlockFields, acc': BlockFields)
    requires Unescaped(key)
    requires DecodeBlockField(key, value + t, acc) == Ok(Decoded(acc', t))
    requires |t| > 0 && (t[0] == ',' || t[0] == '}')
    ensures DecodeBlockMembers(Member(key, value) + t, acc)
            == if t[0] == '}' then Ok(Decoded(acc', t[1..])) else DecodeBlockMembers(t[1..], acc')
  {
    var after := ":" + (value + t);
    Assoc4("\"" + key + "\"", ":", value, t);
    KeyRoundTrip(key, after);
    assert after[1..] == value + t;
  }

  /** A "name" member sets the name field. */
  lemma BlockNameMember(n: string, t: string, acc: BlockFields)
    requires acc.name.None? && |t| > 0 && (t[0] == ',' || t[0] == '}')
    ensures DecodeBlockMembers(Member("name", EncodeString(n)) + t, acc)
            == if t[0] == '}' then Ok(Decoded(acc.(name := Some(n)), t[1..]))
               else DecodeBlockMembers(t[1..], acc.(name := Some(n)))
  {
    StringRoundTrip(n, t);
    KeysUnescaped();
    BlockMemberStep("name", EncodeString(n), t, acc, acc.(name := Some(n)));
  }

  /** A "modifiers" member sets the modifiers field. */
  lemma BlockModifiersMember(m: seq<string>, t: string, acc: BlockFields)
    requires acc.modifiers.None? && |t| > 0 && (t[0] == ',' || t[0] == '}')
    ensures DecodeBlockMembers(Member("modifiers", EncodeStrings(m)) + t, acc)
            == if t[0] == '}' then Ok(Decoded(acc.(modifiers := Some(m)), t[1..]))
               else DecodeBlockMembers(t[1..], acc.(modifiers := Some(m)))
  {
    StringsRoundTrip(m, t);
    KeysUnescaped();
    BlockMemberStep("modifiers", EncodeStrings(m), t, acc, acc.(modifiers := Some(m)));
  }

  /** An "elements" member sets the elements field. */
  lemma BlockElementsMember(es: seq<BemElement>, t: string, acc: BlockFields)
    requires acc.elements.None? && |t| > 0 && (t[0] == ',' || t[0] == '}')
    ensures DecodeBlockMembers(Member("elements", EncodeElements(es)) + t, acc)
            == if t[0] == '}' then Ok(Decoded(acc.(elements := Some(es)), t[1..]))
               else DecodeBlockMembers(t[1..], acc.(elements := Some(es)))
  {
    ElementsRoundTrip(es, t);
    KeysUnescaped();
    BlockMemberStep("elements", EncodeElements(es), t, acc, acc.(elements := Some(es)));
  }

  /** An object whose members decode to `fields` is the block those fields name, or its error. */
  lemma BlockObject(body: string, fields: BlockFields, rest: string)
    requires |body| > 0 && body[0] == '"'
    requires DecodeBlockMembers(body, NoBlockFields) == Ok(Decoded(fields, rest))
    ensures DecodeBlock("{" + body)
            == match BlockOfFields(fields) case Ok(b) => Ok(Decoded(b, rest)) case Err(e) => Err(e)
  {
    var s := "{" + body;
    assert s[1..] == body;
    assert s[1] == '"';
  }

  /**
   * `from_json` of an object whose members read without error: the first
   * missing field, in declaration order, is reported; with all three present
   * the block is returned, provided nothing follows the object.
   */
  lemma ObjectOutcome(body: string, fields: BlockFields, rest: string)
    requires |body| > 0 && body[0] == '"'
    requires DecodeBlockMembers(body, NoBlockFields) == Ok(Decoded(fields, rest))
    ensures fields.name.None? ==> FromJson("{" + body) == Err("missing field `name`")
    ensures fields.name.Some? && fields.modifiers.None? ==> FromJson("{" + body) == Err("missing field `modifiers`")
    ensures fields.name.Some? && fields.modifiers.Some? && fields.elements.None?
            ==> FromJson("{" + body) == Err("missing field `elements`")
    ensures fields.name.Some? && fields.modifiers.Some? && fields.elements.Some? && rest == []
            ==> FromJson("{" + body) == Ok(BemBlock(fields.name.value, fields.modifiers.value, fields.elements.value))
    ensures fields.name.Some? && fields.modifiers.Some? && fields.elements.Some? && rest != []
            ==> FromJson("{" + body) == Err("trailing characters")
  {
    BlockObject(body, fields, rest);
  }

  lemma MemberStart(key: string, value: string)
    ensures |Member(key, value)| > 0 && Member(key, value)[0] == '"'
  {
  }

  /** A block survives encoding and decoding unchanged, whatever follows it. */
  lemma BlockRoundTrip(b: BemBlock, rest: string)
    ensures DecodeBlock(EncodeBlock(b) + rest) == Ok(Decoded(b, rest))
  {
    var m1 := Member("name", EncodeString(b.name));
    var m2 := Member("modifiers", EncodeStrings(b.modifiers));
    var m3 := Member("elements", EncodeElements(b.elements));
    var t3 := "}" + rest;
    var t2 := "," + (m3 + t3);
    var t1 := "," + (m2 + t2);
    Regroup("{", m1, ",", m2, ",", m3, "}", rest);
    assert EncodeBlock(b) + rest == "{" + (m1 + t1);
    BlockElementsMember(b.elements, t3, BlockFields(Some(b.name), Some(b.modifiers), None));
    assert t2[1..] == m3 + t3;
    BlockModifiersMember(b.modifiers, t2, BlockFields(Some(b.name), None, None));
    assert t1[1..] == m2 + t2;
    BlockNameMember(b.name, t1, NoBlockFields);
    MemberStart("name", EncodeString(b.name));
    BlockObject(m1 + t1, BlockFields(Some(b.name), Some(b.modifiers), Some(b.elements)), rest);
  }

  // ---------------------------------------------------------------------
  // The public pair

  /** `to_json`: serialization of this schema cannot fail. */
  function ToJson(b: BemBlock): (r: Result<string>)
    ensures r.Ok?
  {
    Ok(EncodeBlock(b))
  }

  /** `from_json`: one block object and nothing after it. */
  function FromJson(s: string): (r: Result<BemBlock>)
    ensures r.Ok? ==> |s| > 1 && s[0] == '{' && s[1] == '"'
  {
    var d :- DecodeBlock(s);
    if d.rest != [] then Err("trailing characters") else Ok(d.value)
  }

  /** The round trip the library promises: every block comes back equal. */
  lemma RoundTrip(b: BemBlock)
    ensures ToJson(b).Ok? && FromJson(ToJson(b).value) == Ok(b)
  {
    BlockRoundTrip(b, "");
    assert EncodeBlock(b) + "" == EncodeBlock(b);
  }

  /** An object with empty "modifiers" and "elements" arrays decodes to a block with neither. */
  lemma EmptyArraysDecode(n: string)
    ensures FromJson("{" + Member("name", EncodeString(n)) + "," + Member("modifiers", "[]")
                     + "," + Member("elements", "[]") + "}")
            == Ok(BemBlock(n, [], []))
  {
    assert EncodeStrings([]) == "[]";
    assert EncodeElements([]) == "[]";
    RoundTrip(BemBlock(n, [], []));
  }

  /** Anything after the block object is rejected. */
  lemma TrailingTextRejected(b: BemBlock, t: string)
    requires t != [] && t[0] != ' ' && t[0] != '\t' && t[0] != '\n' && t[0] != '\r'
    ensures FromJson(EncodeBlock(b) + t) == Err("trailing characters")
  {
    BlockRoundTrip(b, t);
  }

  /** Input that starts with neither an object, nor an array, nor whitespace is rejected. */
  lemma NonObjectRejected(s: string)
    requires |s| == 0 || (s[0] != '{' && s[0] != '[' && s[0] != ' ' && s[0] != '\t' && s[0] != '\n' && s[0] != '\r')
    ensures FromJson(s).Err?
  {
  }

  /** An object without "elements" is rejected, not decoded into a partial block. */
  lemma MissingElementsRejected(n: string, m: seq<string>)
    ensures FromJson("{" + Member("name", EncodeString(n)) + "," + Member("modifiers", EncodeStrings(m)) + "}")
            == Err("missing field `elements`")
  {
    var m1 := Member("name", EncodeString(n));
    var m2 := Member("modifiers", EncodeStrings(m));
    var t2 := "}";
    var t1 := "," + (m2 + t2);
    Regroup5("{", m1, ",", m2, "}");
    BlockModifiersMember(m, t2, BlockFields(Some(n), None, None));
    assert t1[1..] == m2 + t2;
    BlockNameMember(n, t1, NoBlockFields);
    MemberStart("name", EncodeString(n));
    BlockObject(m1 + t1, BlockFields(Some(n), Some(m), None), "");
  }

  /** An object without "modifiers" is rejected: the field has no default. */
  lemma MissingModifiersRejected(n: string, es: seq<BemElement>)
    ensures FromJson("{" + Member("name", EncodeString(n)) + "," + Member("elements", EncodeElements(es)) + "}")
            == Err("missing field `modifiers`")
  {
    var m1 := Member("name", EncodeString(n));
    var m3 := Member("elements", EncodeElements(es));
    var t3 := "}";
    var t1 := "," + (m3 + t3);
    Regroup5("{", m1, ",", m3, "}");
    BlockElementsMember(es, t3, BlockFields(Some(n), None, None));
    assert t1[1..] == m3 + t3;
    BlockNameMember(n, t1, NoBlockFields);
    MemberStart("name", EncodeString(n));
    BlockObject(m1 + t1, BlockFields(Some(n), None, Some(es)), "");
  }

  /** An object without "name" is rejected. */
  lemma MissingNameRejected(m: seq<string>, es: seq<BemElement>)
    ensures FromJson("{" + Member("modifiers", EncodeStrings(m)) + "," + Member("elements", EncodeElements(es)) + "}")
            == Err("missing field `name`")
  {
    var m2 := Member("modifiers", EncodeStrings(m));
    var m3 := Member("elements", EncodeElements(es));
    var t3 := "}";
    var t2 := "," + (m3 + t3);
    Regroup5("{", m2, ",", m3, "}");
    BlockElementsMember(es, t3, BlockFields(None, Some(m), None));
    assert t2[1..] == m3 + t3;
    BlockModifiersMember(m, t2, NoBlockFields);
    MemberStart("modifiers", EncodeStrings(m));
    BlockObject(m2 + t2, BlockFields(None, Some(m), Some(es)), "");
  }

  /** The members of a block object may come in any order. */
  lemma MemberOrderIrrelevant(b: BemBlock)
    ensures FromJson("{" + Member("elements", EncodeElements(b.elements))
                     + "," + Member("modifiers", EncodeStrings(b.modifiers))
                     + "," + Member("name", EncodeString(b.name)) + "}")
            == Ok(b)
  {
    var m3 := Member("elements", EncodeElements(b.elements));
    var m2 := Member("modifiers", EncodeStrings(b.modifiers));
    var m1 := Member("name", EncodeString(b.name));
    var t1 := "}" + "";
    var t2 := "," + (m1 + t1);
    var t3 := "," + (m2 + t2);
    Regroup("{", m3, ",", m2, ",", m1, "}", "");
    assert "{" + m3 + "," + m2 + "," + m1 + "}" == "{" + m3 + "," + m2 + "," + m1 + "}" + "";
    assert t1[1..] == "";
    BlockNameMember(b.name, t1, BlockFields(None, Some(b.modifiers), Some(b.elements)));
    assert t2[1..] == m1 + t1;
    BlockModifiersMember(b.modifiers, t2, BlockFields(None, None, Some(b.elements)));
    assert t3[1..] == m2 + t2;
    BlockElementsMember(b.elements, t3, NoBlockFields);
    MemberStart("elements", EncodeElements(b.elements));
    BlockObject(m3 + t3, BlockFields(Some(b.name), Some(b.modifiers), Some(b.elements)), "");
  }

  /** A "name" member after the name field is already set is an error. */
  lemma BlockNameAgain(n: string, t: string, acc: BlockFields)
    requires acc.name.Some?
    ensures DecodeBlockMembers(Member("name", EncodeString(n)) + t, acc) == Err("duplicate field `name`")
  {
    var after := ":" + (EncodeString(n) + t);
    Assoc4("\"" + "name" + "\"", ":", EncodeString(n), t);
    KeysUnescaped();
    KeyRoundTrip("name", after);
  }

  /** An object whose members fail to decode is rejected with their error. */
  lemma BlockObjectError(body: string, e: string)
    requires |body| > 0 && body[0] == '"'
    requires DecodeBlockMembers(body, NoBlockFields) == Err(e)
    ensures DecodeBlock("{" + body) == Err(e)
  {
    var s := "{" + body;
    assert s[1..] == body;
    assert s[1] == '"';
  }

  /** A repeated member is rejected rather than overwriting the first. */
  lemma DuplicateNameRejected(n1: string, n2: string, t: string)
    ensures FromJson("{" + Member("name", EncodeString(n1)) + "," + Member("name", EncodeString(n2)) + t)
            == Err("duplicate field `name`")
  {
    var m1 := Member("name", EncodeString(n1));
    var m2 := Member("name", EncodeString(n2));
    var t1 := "," + (m2 + t);
    Regroup5("{", m1, ",", m2, t);
    BlockNameMember(n1, t1, NoBlockFields);
    assert t1[1..] == m2 + t;
    BlockNameAgain(n2, t, BlockFields(Some(n1), None, None));
    MemberStart("name", EncodeString(n1));
    BlockObjectError(m1 + t1, "duplicate field `name`");
  }

  /** The block of the library's own JSON tests. */
  function TestBlock(): BemBlock {
    BemBlock("media-player", ["dark"],
             [BemElement("button", ["fast-forward", "rewind"]), BemElement("timeline", [])])
  }

  /** The test block comes back equal, element order and modifier order included. */
  lemma TestBlockRoundTrip()
    ensures FromJson(ToJson(TestBlock()).value) == Ok(TestBlock())
    ensures FromJson(ToJson(TestBlock()).value).value.elements[0].modifiers == ["fast-forward", "rewind"]
  {
    RoundTrip(TestBlock());
  }

  // Concrete texts. The lemmas below rewrite the encoder's output into
  // constant pieces and the string values between them, so that the texts
  // written in the library's documentation and tests can be compared with it.

  /** Two adjacent constant pieces of a text may be written as one. */
  lemma Glue(x: string, a: string, b: string, ab: string)
    requires ab == a + b
    ensures x + a + b == x + ab
  {
  }

  /** Three adjacent constant pieces of a text may be written as one. */
  lemma Glue3(x: string, a: string, b: string, c: string, abc: string)
    requires abc == a + b + c
    ensures x + a + b + c == x + abc
  {
  }

  lemma SpreadString(x: string, k: string, q: string, v: string, z: string)
    ensures x + (k + (q + v + z)) == x + k + q + v + z
  {
  }

  lemma SpreadOne(x: string, k: string, o: string, q1: string, d: string, q2: string, e: string)
    ensures x + (k + (o + (q1 + d + q2) + e)) == x + k + o + q1 + d + q2 + e
  {
  }

  lemma SpreadTwo(x: string, k: string, o: string, q1: string, f: string, q2: string, c: string,
                  q3: string, r: string, q4: string, e: string)
    ensures x + (k + (o + (q1 + f + q2 + c + (q3 + r + q4)) + e))
            == x + k + o + q1 + f + q2 + c + q3 + r + q4 + e
  {
  }

  lemma SpreadObject(x: string, o: string, m1: string, c: string, m2: string, e: string)
    ensures x + (o + m1 + c + m2 + e) == x + o + m1 + c + m2 + e
  {
  }

  lemma SpreadList(x: string, k: string, o: string, a: string, c: string, b: string, e: string)
    ensures x + (k + (o + (a + c + b) + e)) == x + k + o + a + c + b + e
  {
  }

  lemma NameTextPieces()
    ensures "\"name\":\"" == ("\"" + "name" + "\"" + ":") + "\""
  {
  }

  /** A `name` member whose value needs no escaping. */
  lemma NameText(x: string, v: string)
    requires Unescaped(v)
    ensures x + Member("name", EncodeString(v)) == x + "\"name\":\"" + v + "\""
  {
    NameTextPieces();
    EscapeUnescaped(v);
    var k := "\"" + "name" + "\"" + ":";
    SpreadString(x, k, "\"", v, "\"");
    Glue(x, k, "\"", "\"name\":\"");
  }

  lemma NoModifiersTextPieces()
    ensures "\"" + "modifiers" + "\"" + ":" + "[]" == "\"modifiers\":[]"
  {
  }

  /** An empty `modifiers` member. */
  lemma NoModifiersText(x: string)
    ensures x + Member("modifiers", EncodeStrings([])) == x + "\"modifiers\":[]"
  {
    NoModifiersTextPieces();
    assert EncodeStrings([]) == "[]";
  }

  lemma OneModifierTextPieces()
    ensures "\"modifiers\":[\"" == ("\"" + "modifiers" + "\"" + ":") + "[" + "\""
    ensures "\"]" == "\"" + "]"
  {
  }

  /** A `modifiers` member with one modifier that needs no escaping. */
  lemma OneModifierText(x: string, d: string)
    requires Unescaped(d)
    ensures x + Member("modifiers", EncodeStrings([d])) == x + "\"modifiers\":[\"" + d + "\"]"
  {
    OneModifierTextPieces();
    EscapeUnescaped(d);
    assert StringItems([d]) == EncodeString(d);
    var k := "\"" + "modifiers" + "\"" + ":";
    SpreadOne(x, k, "[", "\"", d, "\"", "]");
    Glue3(x, k, "[", "\"", "\"modifiers\":[\"");
    Glue(x + "\"modifiers\":[\"" + d, "\"", "]", "\"]");
  }

  lemma TwoModifiersTextPieces()
    ensures "\"modifiers\":[\"" == ("\"" + "modifiers" + "\"" + ":") + "[" + "\""
    ensures "\",\"" == "\"" + "," + "\""
    ensures "\"]" == "\"" + "]"
  {
  }

  /** A `modifiers` member with two modifiers that need no escaping. */
  lemma TwoModifiersText(x: string, f: string, r: string)
    requires Unescaped(f) && Unescaped(r)
    ensures x + Member("modifiers", EncodeStrings([f, r])) == x + "\"modifiers\":[\"" + f + "\",\"" + r + "\"]"
  {
    TwoModifiersTextPieces();
    EscapeUnescaped(f);
    EscapeUnescaped(r);
    assert [f, r][1..] == [r];
    assert StringItems([f, r]) == EncodeString(f) + "," + EncodeString(r);
    var k := "\"" + "modifiers" + "\"" + ":";
    SpreadTwo(x, k, "[", "\"", f, "\"", ",", "\"", r, "\"", "]");
    Glue3(x, k, "[", "\"", "\"modifiers\":[\"");
    Glue3(x + "\"modifiers\":[\"" + f, "\"", ",", "\"", "\",\"");
    Glue(x + "\"modifiers\":[\"" + f + "\",\"" + r, "\"", "]", "\"]");
  }

  lemma NoElementsTextPieces()
    ensures "\"" + "elements" + "\"" + ":" + "[]" == "\"elements\":[]"
  {
  }

  /** An empty `elements` member. */
  lemma NoElementsText(x: string)
    ensures x + Member("elements", EncodeElements([])) == x + "\"elements\":[]"
  {
    NoElementsTextPieces();
    assert EncodeElements([]) == "[]";
  }

  lemma NamedEmptyTextPieces()
    ensures "{" + "\"name\":\"" == "{\"name\":\""
    ensures "\"," == "\"" + ","
    ensures "\",\"modifiers\":[]" == "\"," + "\"modifiers\":[]"
    ensures "\",\"modifiers\":[]," == "\",\"modifiers\":[]" + ","
    ensures "\",\"modifiers\":[],\"elements\":[]" == "\",\"modifiers\":[]," + "\"elements\":[]"
    ensures "\",\"modifiers\":[],\"elements\":[]}" == "\",\"modifiers\":[],\"elements\":[]" + "}"
  {
  }

  /** The text of a block with a plain name and no modifiers or elements. */
  lemma NamedEmptyText(n: string)
    requires Unescaped(n)
    ensures EncodeBlock(BemBlock(n, [], [])) == "{\"name\":\"" + n + "\",\"modifiers\":[],\"elements\":[]}"
  {
    NamedEmptyTextPieces();
    NameText("{", n);
    var p := "{\"name\":\"" + n;
    Glue(p, "\"", ",", "\",");
    NoModifiersText(p + "\",");
    Glue(p, "\",", "\"modifiers\":[]", "\",\"modifiers\":[]");
    Glue(p, "\",\"modifiers\":[]", ",", "\",\"modifiers\":[],");
    NoElementsText(p + "\",\"modifiers\":[],");
    Glue(p, "\",\"modifiers\":[],", "\"elements\":[]", "\",\"modifiers\":[],\"elements\":[]");
    Glue(p, "\",\"modifiers\":[],\"elements\":[]", "}", "\",\"modifiers\":[],\"elements\":[]}");
  }

  /** The documentation example's shape: a plain name and two empty arrays. */
  lemma NamedEmptyDecodes(n: string)
    requires Unescaped(n)
    ensures FromJson("{\"name\":\"" + n + "\",\"modifiers\":[],\"elements\":[]}") == Ok(BemBlock(n, [], []))
  {
    NamedEmptyText(n);
    RoundTrip(BemBlock(n, [], []));
  }

  lemma DocExampleText()
    ensures "{\"name\":\"media-player\",\"modifiers\":[],\"elements\":[]}"
            == "{\"name\":\"" + "media-player" + "\",\"modifiers\":[],\"elements\":[]}"
  {
  }

  /** The exact text of the `from_json` documentation example decodes. */
  lemma DocExampleDecodes()
    ensures FromJson("{\"name\":\"media-player\",\"modifiers\":[],\"elements\":[]}") == Ok(BemBlock("media-player", [], []))
  {
    DocExampleText();
    assert Unescaped("media-player");
    NamedEmptyDecodes("media-player");
  }

  lemma ElementText2Pieces()
    ensures "{\"name\":\"" == "{" + "\"name\":\""
    ensures "\"," == "\"" + ","
    ensures "\",\"modifiers\":[\"" == "\"," + "\"modifiers\":[\""
    ensures "\"]}" == "\"]" + "}"
  {
  }

  /** An element object with a plain name and two plain modifiers. */
  lemma ElementText2(x: string, b: string, f: string, r: string)
    requires Unescaped(b) && Unescaped(f) && Unescaped(r)
    ensures x + EncodeElement(BemElement(b, [f, r]))
            == x + "{\"name\":\"" + b + "\",\"modifiers\":[\"" + f + "\",\"" + r + "\"]}"
  {
    ElementText2Pieces();
    var m1 := Member("name", EncodeString(b));
    var m2 := Member("modifiers", EncodeStrings([f, r]));
    SpreadObject(x, "{", m1, ",", m2, "}");
    NameText(x + "{", b);
    Glue(x, "{", "\"name\":\"", "{\"name\":\"");
    var p := x + "{\"name\":\"" + b;
    Glue(p, "\"", ",", "\",");
    TwoModifiersText(p + "\",", f, r);
    Glue(p, "\",", "\"modifiers\":[\"", "\",\"modifiers\":[\"");
    var q := p + "\",\"modifiers\":[\"" + f + "\",\"" + r;
    Glue(q, "\"]", "}", "\"]}");
  }

  lemma ElementText0Pieces()
    ensures "{\"name\":\"" == "{" + "\"name\":\""
    ensures "\"," == "\"" + ","
    ensures "\",\"modifiers\":[]}" == "\"," + "\"modifiers\":[]" + "}"
  {
  }

  /** An element object with a plain name and no modifiers. */
  lemma ElementText0(x: string, t: string)
    requires Unescaped(t)
    ensures x + EncodeElement(BemElement(t, []))
            == x + "{\"name\":\"" + t + "\",\"modifiers\":[]}"
  {
    ElementText0Pieces();
    var m1 := Member("name", EncodeString(t));
    var m2 := Member("modifiers", EncodeStrings([]));
    SpreadObject(x, "{", m1, ",", m2, "}");
    NameText(x + "{", t);
    Glue(x, "{", "\"name\":\"", "{\"name\":\"");
    var p := x + "{\"name\":\"" + t;
    Glue(p, "\"", ",", "\",");
    NoModifiersText(p + "\",");
    Glue3(p, "\",", "\"modifiers\":[]", "}", "\",\"modifiers\":[]}");
  }

  lemma ElementItemsPair(e1: BemElement, e2: BemElement)
    ensures ElementItems([e1, e2]) == EncodeElement(e1) + "," + EncodeElement(e2)
  {
    assert [e1, e2][1..] == [e2];
  }

  lemma ElementsTextPieces()
    ensures "\"elements\":[" == ("\"" + "elements" + "\"" + ":") + "["
  {
  }

  /** An `elements` member with two elements. */
  lemma ElementsText(x: string, e1: BemElement, e2: BemElement)
    ensures x + Member("elements", EncodeElements([e1, e2]))
            == x + "\"elements\":[" + EncodeElement(e1) + "," + EncodeElement(e2) + "]"
  {
    ElementsTextPieces();
    ElementItemsPair(e1, e2);
    var k := "\"" + "elements" + "\"" + ":";
    SpreadList(x, k, "[", EncodeElement(e1), ",", EncodeElement(e2), "]");
    Glue(x, k, "[", "\"elements\":[");
  }

  lemma TestElementsTextPieces()
    ensures "\"elements\":[{\"name\":\"" == "\"elements\":[" + "{\"name\":\""
    ensures "\"]}," == "\"]}" + ","
    ensures "\"]},{\"name\":\"" == "\"]}," + "{\"name\":\""
    ensures "\",\"modifiers\":[]}]" == "\",\"modifiers\":[]}" + "]"
  {
  }

  /** The `elements` member of a block shaped like the test block. */
  lemma TestElementsText(x: string, b: string, f: string, r: string, t: string)
    requires Unescaped(b) && Unescaped(f) && Unescaped(r) && Unescaped(t)
    ensures x + Member("elements", EncodeElements([BemElement(b, [f, r]), BemElement(t, [])]))
            == x + "\"elements\":[{\"name\":\"" + b + "\",\"modifiers\":[\"" + f + "\",\"" + r
               + "\"]},{\"name\":\"" + t + "\",\"modifiers\":[]}]"
  {
    TestElementsTextPieces();
    ElementsText(x, BemElement(b, [f, r]), BemElement(t, []));
    ElementText2(x + "\"elements\":[", b, f, r);
    Glue(x, "\"elements\":[", "{\"name\":\"", "\"elements\":[{\"name\":\"");
    var p := x + "\"elements\":[{\"name\":\"" + b + "\",\"modifiers\":[\"" + f + "\",\"" + r;
    Glue(p, "\"]}", ",", "\"]},");
    ElementText0(p + "\"]},", t);
    Glue(p, "\"]},", "{\"name\":\"", "\"]},{\"name\":\"");
    var q := p + "\"]},{\"name\":\"" + t;
    Glue(q, "\",\"modifiers\":[]}", "]", "\",\"modifiers\":[]}]");
  }

  lemma TestHeadTextPieces()
    ensures "{" + "\"name\":\"" == "{\"name\":\""
    ensures "\"," == "\"" + ","
    ensures "\",\"modifiers\":[\"" == "\"," + "\"modifiers\":[\""
  {
  }

  /** The `name` and `modifiers` members of a block shaped like the test block. */
  lemma TestHeadText(n: string, d: string)
    requires Unescaped(n) && Unescaped(d)
    ensures "{" + Member("name", EncodeString(n)) + "," + Member("modifiers", EncodeStrings([d]))
            == "{\"name\":\"" + n + "\",\"modifiers\":[\"" + d + "\"]"
  {
    TestHeadTextPieces();
    NameText("{", n);
    var p := "{\"name\":\"" + n;
    Glue(p, "\"", ",", "\",");
    OneModifierText(p + "\",", d);
    Glue(p, "\",", "\"modifiers\":[\"", "\",\"modifiers\":[\"");
  }

  lemma TestTailTextPieces()
    ensures "\"]," == "\"]" + ","
    ensures "\"],\"elements\":[{\"name\":\"" == "\"]," + "\"elements\":[{\"name\":\""
    ensures "\",\"modifiers\":[]}]}" == "\",\"modifiers\":[]}]" + "}"
  {
  }

  /** The rest of a block shaped like the test block, after its first modifier. */
  lemma TestTailText(p: string, b: string, f: string, r: string, t: string)
    requires Unescaped(b) && Unescaped(f) && Unescaped(r) && Unescaped(t)
    ensures p + "\"]" + "," + Member("elements", EncodeElements([BemElement(b, [f, r]), BemElement(t, [])])) + "}"
            == p + "\"],\"elements\":[{\"name\":\"" + b
               + "\",\"modifiers\":[\"" + f + "\",\"" + r + "\"]},{\"name\":\"" + t + "\",\"modifiers\":[]}]}"
  {
    TestTailTextPieces();
    Glue(p, "\"]", ",", "\"],");
    TestElementsText(p + "\"],", b, f, r, t);
    Glue(p, "\"],", "\"elements\":[{\"name\":\"", "\"],\"elements\":[{\"name\":\"");
    var q := p + "\"],\"elements\":[{\"name\":\"" + b + "\",\"modifiers\":[\"" + f + "\",\"" + r
             + "\"]},{\"name\":\"" + t;
    Glue(q, "\",\"modifiers\":[]}]", "}", "\",\"modifiers\":[]}]}");
  }

  /** The text `to_json` writes for any block shaped like the test block. */
  lemma TestBlockText(n: string, d: string, b: string, f: string, r: string, t: string)
    requires Unescaped(n) && Unescaped(d) && Unescaped(b) && Unescaped(f) && Unescaped(r) && Unescaped(t)
    ensures EncodeBlock(BemBlock(n, [d], [BemElement(b, [f, r]), BemElement(t, [])]))
            == "{\"name\":\"" + n + "\",\"modifiers\":[\"" + d + "\"],\"elements\":[{\"name\":\"" + b
               + "\",\"modifiers\":[\"" + f + "\",\"" + r + "\"]},{\"name\":\"" + t + "\",\"modifiers\":[]}]}"
  {
    TestHeadText(n, d);
    TestTailText("{\"name\":\"" + n + "\",\"modifiers\":[\"" + d, b, f, r, t);
  }

  lemma TestNamesUnescaped()
    ensures Unescaped("media-player") && Unescaped("dark") && Unescaped("button")
    ensures Unescaped("fast-forward") && Unescaped("rewind") && Unescaped("timeline")
  {
  }

  /** `to_json` of the test block writes the text the `from_json` test reads, and that text decodes to the test block. */
  lemma TestJsonDecodes()
    ensures ToJson(TestBlock()).value
            == "{\"name\":\"" + "media-player" + "\",\"modifiers\":[\"" + "dark" + "\"],\"elements\":[{\"name\":\"" + "button"
               + "\",\"modifiers\":[\"" + "fast-forward" + "\",\"" + "rewind" + "\"]},{\"name\":\"" + "timeline" + "\",\"modifiers\":[]}]}"
    ensures FromJson("{\"name\":\"" + "media-player" + "\",\"modifiers\":[\"" + "dark" + "\"],\"elements\":[{\"name\":\"" + "button"
                     + "\",\"modifiers\":[\"" + "fast-forward" + "\",\"" + "rewind" + "\"]},{\"name\":\"" + "timeline" + "\",\"modifiers\":[]}]}")
            == Ok(TestBlock())
  {
    TestNamesUnescaped();
    TestBlockText("media-player", "dark", "button", "fast-forward", "rewind", "timeline");
    RoundTrip(TestBlock());
  }
}
