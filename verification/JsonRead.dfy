/** Reading what the serializer writes: strings by section 7 of RFC 8259, and a value in which every
    form occurs. */
module JsonRead {
  import opened Basics
  import opened JsonText

  // ------------------------------------------------------------------------
  // Strings
  // ------------------------------------------------------------------------

  /** The value of a hexadecimal digit of either case. */
  function DigitValue(c: char): Option<nat> {
    if '0' <= c <= '9' then Some(c as nat - '0' as nat)
    else if 'a' <= c <= 'f' then Some(c as nat - 'a' as nat + 10)
    else if 'A' <= c <= 'F' then Some(c as nat - 'A' as nat + 10)
    else None
  }

  /** The character four hexadecimal digits stand for, outside the surrogates. */
  function FourDigits(t: string): Option<char>
    requires |t| >= 4
  {
    match (DigitValue(t[0]), DigitValue(t[1]), DigitValue(t[2]), DigitValue(t[3]))
    case (Some(a), Some(b), Some(c), Some(d)) =>
      var n := ((a * 16 + b) * 16 + c) * 16 + d;
      if n < 0xD800 || 0xE000 <= n < 0x1_0000 then Some(n as char) else None
    case _ => None
  }

  /** The character that a two-character escape stands for. */
  function ShortEscape(c: char): Option<char> {
    if c == '"' || c == '\\' || c == '/' then Some(c)
    else if c == 'b' then Some(8 as char)
    else if c == 'f' then Some(12 as char)
    else if c == 'n' then Some(10 as char)
    else if c == 'r' then Some(13 as char)
    else if c == 't' then Some(9 as char)
    else None
  }

  /** One character of a string literal and how many characters of text it takes. */
  function ReadChar(t: string): (r: Option<(char, nat)>)
    ensures r.Some? ==> 1 <= r.value.1 <= |t|
  {
    if t == [] || t[0] == '"' || t[0] as nat < 32 then None
    else if t[0] != '\\' then Some((t[0], 1))
    else if |t| < 2 then None
    else if t[1] == 'u' then
      if |t| < 6 || FourDigits(t[2..6]).None? then None else Some((FourDigits(t[2..6]).value, 6))
    else if ShortEscape(t[1]).Some? then Some((ShortEscape(t[1]).value, 2))
    else None
  }

  /** A string literal's characters up to its closing quote, and the text behind that. */
  function ReadChars(t: string): Option<(string, string)>
    decreases |t|
  {
    if t != [] && t[0] == '"' then Some(([], t[1..]))
    else
      match ReadChar(t)
      case None => None
      case Some((c, n)) =>
        match ReadChars(t[n..])
        case None => None
        case Some((s, rest)) => Some(([c] + s, rest))
  }

  lemma EscapeIsRead(c: char, rest: string)
    ensures ReadChar(EscapeChar(c) + rest) == Some((c, |EscapeChar(c)|))
    ensures EscapeChar(c)[0] != '"'
  {
    var n := c as nat;
    if n < 32 && n !in {8, 9, 10, 12, 13} {
      var e := EscapeChar(c);
      var t := e + rest;
      assert e == ['\\', 'u', '0', '0', HexChar(n / 16), HexChar(n % 16)];
      assert t[..6] == e && t[2..6] == ['0', '0', HexChar(n / 16), HexChar(n % 16)];
      HexCharRead(n / 16);
      HexCharRead(n % 16);
      assert FourDigits(t[2..6]) == Some(c);
    } else {
      var e := EscapeChar(c);
      assert |e| <= 2 && (e + rest)[..|e|] == e;
    }
  }

  lemma HexCharRead(n: nat)
    requires n < 16
    ensures DigitValue(HexChar(n)) == Some(n)
  {
  }

  /** Reading a quoted string gives the string back and leaves what follows it. */
  lemma {:induction false} QuotedIsRead(s: string, rest: string)
    ensures ReadChars(EscapeAll(s) + (['"'] + rest)) == Some((s, rest))
  {
    hide EscapeChar, ReadChar;
    var t := EscapeAll(s) + (['"'] + rest);
    if s == [] {
      assert t == ['"'] + rest && t[1..] == rest;
    } else {
      var e, behind := EscapeChar(s[0]), EscapeAll(s[1..]) + (['"'] + rest);
      EscapeIsRead(s[0], behind);
      assert t == e + behind && t[0] == e[0] && t[|e|..] == behind;
      QuotedIsRead(s[1..], rest);
      assert [s[0]] + s[1..] == s;
    }
  }

  /** Only quotes, backslashes and control characters are escaped, those with a letter of their own
      in two characters, the others in six with lower-case digits. */
  lemma EscapeLengths(c: char)
    ensures |EscapeChar(c)| == if c == '"' || c == '\\' || c as nat in {8, 9, 10, 12, 13} then 2
                               else if c as nat < 32 then 6
                               else 1
    ensures |EscapeChar(c)| == 6 ==>
              forall k :: 2 <= k < 6 ==> '0' <= EscapeChar(c)[k] <= '9' || 'a' <= EscapeChar(c)[k] <= 'f'
  {
    if |EscapeChar(c)| == 6 {
      assert EscapeChar(c) == ['\\', 'u', '0', '0', HexChar(c as nat / 16), HexChar(c as nat % 16)];
    }
  }

  // ------------------------------------------------------------------------
  // The other forms
  // ------------------------------------------------------------------------

  /** The parts, a comma between each two. */
  function Commas(parts: seq<string>): string {
    if parts == [] then []
    else if |parts| == 1 then parts[0]
    else parts[0] + [','] + Commas(parts[1..])
  }

  lemma {:induction false} RestIsCommas(parts: seq<string>, close: char)
    requires parts != []
    ensures Rest(parts, close) == [','] + Commas(parts) + [close]
  {
    if |parts| > 1 {
      RestIsCommas(parts[1..], close);
    }
  }

  lemma BracketsAndCommas(open: char, parts: seq<string>, close: char)
    ensures Bracketed(open, parts, close) == [open] + Commas(parts) + [close]
  {
    if |parts| > 1 {
      RestIsCommas(parts[1..], close);
    }
  }

  /** A member: its key as a string, a colon, its value. */
  function Member(f: Field): string {
    Print(Str(f.key)) + [':'] + Print(f.val)
  }

  lemma MemberIsPrinted(f: Field)
    ensures PrintField(f) == Member(f)
  {
    assert Quote(f.key) + ([':'] + Print(f.val)) == Quote(f.key) + [':'] + Print(f.val);
  }

  lemma MembersArePrinted(fields: seq<Field>)
    ensures seq(|fields|, i requires 0 <= i < |fields| => PrintField(fields[i])) ==
            seq(|fields|, i requires 0 <= i < |fields| => Member(fields[i]))
  {
    hide PrintField, Member;
    forall i | 0 <= i < |fields|
      ensures PrintField(fields[i]) == Member(fields[i])
    {
      MemberIsPrinted(fields[i]);
    }
  }

  /** The words for the constants, numbers as they stand, strings quoted; elements and members in
      the order they have, with commas between them, in brackets or braces, each key quoted and
      followed by a colon. */
  lemma FormsOfValues(v: Value)
    ensures match v
            case Null => Print(v) == "null"
            case Bool(b) => Print(v) == (if b then "true" else "false")
            case Number(t) => Print(v) == t
            case Str(s) => Print(v) == ['"'] + EscapeAll(s) + ['"']
            case Array(items) =>
              Print(v) == ['['] + Commas(seq(|items|, i requires 0 <= i < |items| => Print(items[i]))) + [']']
            case Object(fields) =>
              Print(v) == ['{'] + Commas(seq(|fields|, i requires 0 <= i < |fields| => Member(fields[i]))) + ['}']
  {
    hide Commas, Bracketed, PrintField, Member;
    match v
    case Array(items) =>
      BracketsAndCommas('[', seq(|items|, i requires 0 <= i < |items| => Print(items[i])), ']');
    case Object(fields) =>
      BracketsAndCommas('{', seq(|fields|, i requires 0 <= i < |fields| => PrintField(fields[i])), '}');
      MembersArePrinted(fields);
    case _ =>
  }

  // ------------------------------------------------------------------------
  // The bytes
  // ------------------------------------------------------------------------

  /** Reading UTF-8: the first byte gives the length, of which the bytes make one code point. */
  function ReadUtf8(b: Bytes): Option<string> {
    if b == [] then Some([])
    else
      var n := Utf8Length(b[0]);
      if |b| < n then None
      else
        var v := Utf8Value(b[..n]);
        if !(0 <= v < 0xD800 || 0xE000 <= v < 0x11_0000) then None
        else
          match ReadUtf8(b[n..])
          case None => None
          case Some(rest) => Some([v as char] + rest)
  }

  lemma {:induction false} TextIsRead(s: string)
    ensures ReadUtf8(Utf8All(s)) == Some(s)
  {
    hide Utf8, Utf8Length, Utf8Value;
    if s != [] {
      var e, rest := Utf8(s[0]), Utf8All(s[1..]);
      Utf8Decodes(s[0]);
      assert Utf8All(s) == e + rest && (e + rest)[0] == e[0] && (e + rest)[..|e|] == e && (e + rest)[|e|..] == rest;
      TextIsRead(s[1..]);
      assert [s[0]] + s[1..] == s;
    }
  }

  /** The bytes of a value are the UTF-8 of its text, and nothing else. */
  lemma BytesAreText(v: Value)
    ensures ReadUtf8(JsonBytes(v)) == Some(Print(v))
  {
    TextIsRead(Print(v));
  }
}
