/** JSON values and the bytes the serializer writes for them: compact, keys in the order the
    object has them, strings escaped as section 7 of RFC 8259 asks, text in UTF-8. */
module JsonText {
  import opened Basics
  import opened Ordering

  predicate NumberChar(c: char) {
    '0' <= c <= '9' || c in "+-.eE"
  }

  /** The text of a number, as the library prints it. */
  type NumberText = t: string | t != [] && forall i :: 0 <= i < |t| ==> NumberChar(t[i]) witness "0"

  /** Numbers are their text, objects their fields in the order they were written. */
  datatype Value =
    | Null
    | Bool(b: bool)
    | Number(repr: NumberText)
    | Str(s: string)
    | Array(items: seq<Value>)
    | Object(fields: seq<Field>)

  datatype Field = Field(key: string, val: Value)

  // ------------------------------------------------------------------------
  // Printing
  // ------------------------------------------------------------------------

  function HexChar(n: nat): char
    requires n < 16
  {
    "0123456789abcdef"[n]
  }

  /** Quotes, backslashes and control characters are escaped, the common ones by a letter. */
  function EscapeChar(c: char): (e: string)
    ensures e != []
  {
    if c == '"' then "\\\""
    else if c == '\\' then "\\\\"
    else if c as int == 8 then "\\b"
    else if c as int == 9 then "\\t"
    else if c as int == 10 then "\\n"
    else if c as int == 12 then "\\f"
    else if c as int == 13 then "\\r"
    else if c as int < 32 then "\\u00" + [HexChar(c as int / 16), HexChar(c as int % 16)]
    else [c]
  }

  function EscapeAll(s: string): string {
    if s == [] then [] else EscapeChar(s[0]) + EscapeAll(s[1..])
  }

  function Quote(s: string): string {
    ['"'] + EscapeAll(s) + ['"']
  }

  /** The parts that follow the first, each behind a comma, and the closing bracket. */
  function Rest(parts: seq<string>, close: char): string {
    if parts == [] then [close] else [','] + (parts[0] + Rest(parts[1..], close))
  }

  function First(parts: seq<string>, close: char): string {
    if parts == [] then [close] else parts[0] + Rest(parts[1..], close)
  }

  function Bracketed(open: char, parts: seq<string>, close: char): string {
    [open] + First(parts, close)
  }

  function PrintField(f: Field): string
    decreases f
  {
    Quote(f.key) + ([':'] + Print(f.val))
  }

  function Print(v: Value): string
    decreases v
  {
    match v
    case Null => "null"
    case Bool(b) => if b then "true" else "false"
    case Number(repr) => repr
    case Str(s) => Quote(s)
    case Array(items) => Bracketed('[', seq(|items|, i requires 0 <= i < |items| => Print(items[i])), ']')
    case Object(fields) => Bracketed('{', seq(|fields|, i requires 0 <= i < |fields| => PrintField(fields[i])), '}')
  }

  /** One code point in UTF-8. */
  function Utf8(c: char): (e: Bytes)
    ensures e != []
  {
    var n := c as int;
    if n < 0x80 then [n]
    else if n < 0x800 then [0xC0 + n / 0x40, 0x80 + n % 0x40]
    else if n < 0x1_0000 then [0xE0 + n / 0x1000, 0x80 + n / 0x40 % 0x40, 0x80 + n % 0x40]
    else [0xF0 + n / 0x4_0000, 0x80 + n / 0x1000 % 0x40, 0x80 + n / 0x40 % 0x40, 0x80 + n % 0x40]
  }

  function Utf8All(s: string): Bytes {
    if s == [] then [] else Utf8(s[0]) + Utf8All(s[1..])
  }

  function JsonBytes(v: Value): Bytes {
    Utf8All(Print(v))
  }

  // ------------------------------------------------------------------------
  // Different values have different bytes
  // ------------------------------------------------------------------------

  /** What two fronts of the same text have in common. */
  lemma Fronts<T>(a: seq<T>, x: seq<T>, b: seq<T>, y: seq<T>)
    requires a + x == b + y
    ensures forall i :: 0 <= i < |a| && i < |b| ==> a[i] == b[i]
    ensures a != [] && b != [] ==> a[0] == b[0]
    ensures |a| < |b| ==> x != [] && x[0] == b[|a|]
    ensures |b| < |a| ==> y != [] && y[0] == a[|b|]
    ensures |a| == |b| ==> a == b && x == y
  {
    var t := a + x;
    assert forall i :: 0 <= i < |a| ==> t[i] == a[i];
    assert forall i :: 0 <= i < |b| ==> t[i] == b[i];
    assert t[|a|..] == x && t[|b|..] == y;
    assert x != [] ==> t[|a|] == x[0];
    assert y != [] ==> t[|b|] == y[0];
  }

  function Utf8Length(first: u8): nat {
    if first < 0xC0 then 1 else if first < 0xE0 then 2 else if first < 0xF0 then 3 else 4
  }

  function Utf8Value(e: seq<int>): int
    requires 1 <= |e| <= 4
  {
    if |e| == 1 then e[0]
    else if |e| == 2 then (e[0] - 0xC0) * 0x40 + (e[1] - 0x80)
    else if |e| == 3 then ((e[0] - 0xE0) * 0x40 + (e[1] - 0x80)) * 0x40 + (e[2] - 0x80)
    else (((e[0] - 0xF0) * 0x40 + (e[1] - 0x80)) * 0x40 + (e[2] - 0x80)) * 0x40 + (e[3] - 0x80)
  }

  /** Six bits at a time. */
  lemma Sextets(n: nat)
    ensures n / 0x40 / 0x40 == n / 0x1000 && n / 0x1000 / 0x40 == n / 0x4_0000
  {
  }

  lemma Utf8Decodes(c: char)
    ensures 1 <= |Utf8(c)| <= 4 && |Utf8(c)| == Utf8Length(Utf8(c)[0]) && Utf8Value(Utf8(c)) == c as int
  {
    var n := c as int;
    Sextets(n);
    var a, b := n / 0x40, n / 0x1000;
    assert n == a * 0x40 + n % 0x40;
    assert n >= 0x800 ==> a == b * 0x40 + a % 0x40;
    assert n >= 0x1_0000 ==> b == n / 0x4_0000 * 0x40 + b % 0x40;
  }

  lemma Utf8Cancels(c: char, d: char, x: Bytes, y: Bytes)
    requires Utf8(c) + x == Utf8(d) + y
    ensures c == d && x == y
  {
    hide Utf8, Utf8Value, Utf8Length;
    Fronts(Utf8(c), x, Utf8(d), y);
    Utf8Decodes(c);
    Utf8Decodes(d);
  }

  lemma {:induction false} Utf8Injective(s: string, t: string)
    requires Utf8All(s) == Utf8All(t)
    ensures s == t
    decreases |s|
  {
    hide Utf8;
    if s != [] && t != [] {
      Utf8Cancels(s[0], t[0], Utf8All(s[1..]), Utf8All(t[1..]));
      Utf8Injective(s[1..], t[1..]);
      assert s == [s[0]] + s[1..] && t == [t[0]] + t[1..];
    }
  }

  // ------------------------------------------------------------------------
  // Text is ordered as its UTF-8 bytes are
  // ------------------------------------------------------------------------

  lemma {:induction false} LexAt(a: seq<int>, b: seq<int>, k: nat)
    requires k < |a| && k < |b| && a[k] < b[k] && forall i :: 0 <= i < k ==> a[i] == b[i]
    ensures LexLess(a, b)
  {
    if k > 0 {
      LexAt(a[1..], b[1..], k - 1);
    }
  }

  lemma {:induction false} LexBehind(p: seq<int>, a: seq<int>, b: seq<int>)
    ensures LexLess(p + a, p + b) <==> LexLess(a, b)
  {
    if p == [] {
      assert p + a == a && p + b == b;
    } else {
      assert (p + a)[1..] == p[1..] + a && (p + b)[1..] == p[1..] + b;
      LexBehind(p[1..], a, b);
    }
  }

  /** The first byte tells the length, the others carry six bits each. */
  lemma Utf8Ranges(c: char)
    ensures var e := Utf8(c);
            && 1 <= |e| <= 4 && (forall i :: 1 <= i < |e| ==> 0x80 <= e[i] < 0xC0)
            && |e| == Utf8Length(e[0]) && (|e| > 1 ==> e[0] >= 0xC0)
  {
    Utf8Decodes(c);
  }

  lemma LengthGrows(c: char, d: char)
    requires c < d
    ensures |Utf8(c)| <= |Utf8(d)|
  {
  }

  /** Where the bytes of two characters differ first, the smaller character has the smaller byte. */
  lemma FirstDifference(c: char, d: char) returns (k: nat)
    requires c < d
    ensures k < |Utf8(c)| && k < |Utf8(d)| && Utf8(c)[k] < Utf8(d)[k]
    ensures forall i :: 0 <= i < k ==> Utf8(c)[i] == Utf8(d)[i]
  {
    hide Utf8;
    var a, b := Utf8(c), Utf8(d);
    Utf8Decodes(c);
    Utf8Decodes(d);
    Utf8Ranges(c);
    Utf8Ranges(d);
    LengthGrows(c, d);
    k := if a[0] != b[0] then 0 else if a[1] != b[1] then 1 else if a[2] != b[2] then 2 else 3;
  }

  lemma CharOrder(c: char, d: char, x: Bytes, y: Bytes)
    requires c < d
    ensures LexLess(Utf8(c) + x, Utf8(d) + y)
  {
    hide Utf8;
    var k := FirstDifference(c, d);
    LexAt(Utf8(c) + x, Utf8(d) + y, k);
  }

  /** Comparing code points is comparing the bytes, which is how the source's strings compare. */
  lemma {:induction false} CodesOrderIsUtf8Order(s: string, t: string)
    ensures LexLess(Codes(s), Codes(t)) <==> LexLess(Utf8All(s), Utf8All(t))
    decreases |s|
  {
    hide Utf8;
    if s != [] && t != [] {
      assert Codes(s)[1..] == Codes(s[1..]) && Codes(t)[1..] == Codes(t[1..]);
      var x, y := Utf8All(s[1..]), Utf8All(t[1..]);
      if s[0] < t[0] {
        CharOrder(s[0], t[0], x, y);
      } else if t[0] < s[0] {
        CharOrder(t[0], s[0], y, x);
        LexAsymmetric(Utf8All(t), Utf8All(s));
      } else {
        CodesOrderIsUtf8Order(s[1..], t[1..]);
        LexBehind(Utf8(s[0]), x, y);
      }
    }
  }

  // ------------------------------------------------------------------------
  // What follows a printed value
  // ------------------------------------------------------------------------

  lemma HexCharInjective(m: nat, n: nat)
    requires m < 16 && n < 16 && HexChar(m) == HexChar(n)
    ensures m == n
  {
  }

  /** The escape of one character, and what its first characters tell. */
  lemma EscapeShape(c: char)
    ensures var e := EscapeChar(c);
            && e[0] != '"' && |e| in {1, 2, 6}
            && (|e| == 1 <==> e[0] != '\\') && (|e| == 1 ==> e[0] == c)
            && (|e| == 2 ==> e[1] != 'u')
            && (|e| == 6 ==> e[1] == 'u' && c as int < 32
                             && e[4] == HexChar(c as int / 16) && e[5] == HexChar(c as int % 16))
  {
  }

  lemma ShortEscapeInjective(c: char, d: char)
    requires |EscapeChar(c)| == 2 && EscapeChar(c) == EscapeChar(d)
    ensures c == d
  {
    var letter := EscapeChar(c)[1];
    assert EscapeChar(d)[1] == letter;
  }

  lemma EscapeInjective(c: char, d: char)
    requires EscapeChar(c) == EscapeChar(d)
    ensures c == d
  {
    hide EscapeChar, HexChar;
    EscapeShape(c);
    EscapeShape(d);
    if |EscapeChar(c)| == 2 {
      ShortEscapeInjective(c, d);
    } else if |EscapeChar(c)| == 6 {
      HexCharInjective(c as int / 16, d as int / 16);
      HexCharInjective(c as int % 16, d as int % 16);
    }
  }

  lemma EscapeCancels(c: char, d: char, x: string, y: string)
    requires EscapeChar(c) + x == EscapeChar(d) + y
    ensures c == d && x == y
  {
    hide EscapeChar, HexChar;
    Fronts(EscapeChar(c), x, EscapeChar(d), y);
    EscapeShape(c);
    EscapeShape(d);
    EscapeInjective(c, d);
  }

  lemma EscapeFirst(s: string, x: string)
    requires s != []
    ensures EscapeAll(s) + x == EscapeChar(s[0]) + (EscapeAll(s[1..]) + x)
  {
    hide EscapeChar;
  }

  /** A quoted string ends at the first quote that no escape precedes. */
  lemma {:induction false} EscapedCancels(s: string, t: string, x: string, y: string)
    requires EscapeAll(s) + (['"'] + x) == EscapeAll(t) + (['"'] + y)
    ensures s == t && x == y
    decreases |s|
  {
    hide EscapeAll, EscapeChar;
    if s != [] {
      EscapeFirst(s, ['"'] + x);
      EscapeShape(s[0]);
    } else {
      NothingEscaped(['"'] + x);
    }
    if t != [] {
      EscapeFirst(t, ['"'] + y);
      EscapeShape(t[0]);
    } else {
      NothingEscaped(['"'] + y);
    }
    var sFront := if s == [] then ['"'] else EscapeChar(s[0]);
    var tFront := if t == [] then ['"'] else EscapeChar(t[0]);
    var sRest := if s == [] then x else EscapeAll(s[1..]) + (['"'] + x);
    var tRest := if t == [] then y else EscapeAll(t[1..]) + (['"'] + y);
    Fronts(sFront, sRest, tFront, tRest);
    if s != [] && t != [] {
      EscapeCancels(s[0], t[0], sRest, tRest);
      EscapedCancels(s[1..], t[1..], x, y);
      assert s == [s[0]] + s[1..] && t == [t[0]] + t[1..];
    }
  }

  lemma NothingEscaped(x: string)
    ensures EscapeAll([]) + x == x
  {
  }

  lemma QuoteCancels(s: string, t: string, x: string, y: string)
    requires Quote(s) + x == Quote(t) + y
    ensures s == t && x == y
  {
    hide EscapeAll;
    assert Quote(s) + x == ['"'] + (EscapeAll(s) + (['"'] + x));
    assert Quote(t) + y == ['"'] + (EscapeAll(t) + (['"'] + y));
    Fronts(['"'], EscapeAll(s) + (['"'] + x), ['"'], EscapeAll(t) + (['"'] + y));
    EscapedCancels(s, t, x, y);
  }

  predicate EndChar(c: char) {
    c == ',' || c == ']' || c == '}'
  }

  /** What may follow a value: nothing, or a comma or closing bracket. */
  predicate Ends(x: string) {
    x == [] || EndChar(x[0])
  }

  /** A number's text ends where a character begins that is none of a number's. */
  lemma NumberCancels(a: NumberText, b: NumberText, x: string, y: string)
    requires a + x == b + y && Ends(x) && Ends(y)
    ensures a == b && x == y
  {
    Fronts(a, x, b, y);
  }

  lemma PrintStart(v: Value)
    ensures Print(v) != []
    ensures v.Null? ==> Print(v)[0] == 'n'
    ensures v.Bool? ==> Print(v)[0] == if v.b then 't' else 'f'
    ensures v.Number? ==> NumberChar(Print(v)[0])
    ensures v.Str? ==> Print(v)[0] == '"'
    ensures v.Array? ==> Print(v)[0] == '['
    ensures v.Object? ==> Print(v)[0] == '{'
    ensures !EndChar(Print(v)[0])
  {
  }

  /** The first character tells what kind of value it is. */
  lemma SameKind(a: Value, b: Value, x: string, y: string)
    requires Print(a) + x == Print(b) + y
    ensures a.Null? == b.Null? && a.Bool? == b.Bool? && a.Number? == b.Number?
    ensures a.Str? == b.Str? && a.Array? == b.Array? && a.Object? == b.Object?
    ensures a.Bool? ==> a == b
  {
    hide Print;
    PrintStart(a);
    PrintStart(b);
    Fronts(Print(a), x, Print(b), y);
  }

  lemma ScalarCancels(a: Value, b: Value, x: string, y: string)
    requires !a.Array? && !a.Object? && Print(a) + x == Print(b) + y && Ends(x) && Ends(y)
    ensures a == b && x == y
  {
    SameKind(a, b, x, y);
    match a
    case Number(_) => NumberCancels(a.repr, b.repr, x, y);
    case Str(_) => QuoteCancels(a.s, b.s, x, y);
    case _ => Fronts(Print(a), x, Print(b), y);
  }

  /** The printed elements of an array or the printed fields of an object. */
  function Parts(v: Value): (parts: seq<string>)
    requires v.Array? || v.Object?
    ensures |parts| == if v.Array? then |v.items| else |v.fields|
  {
    if v.Array? then seq(|v.items|, i requires 0 <= i < |v.items| => Print(v.items[i]))
    else seq(|v.fields|, i requires 0 <= i < |v.fields| => PrintField(v.fields[i]))
  }

  function Close(v: Value): char {
    if v.Array? then ']' else '}'
  }

  /** Element k as a value of one element, so that the two kinds of container are one case. */
  ghost predicate SameElement(a: Value, b: Value, k: nat)
    requires a.Array? || a.Object?
    requires b.Array? == a.Array? && b.Object? == a.Object?
    requires k < |Parts(a)| && k < |Parts(b)|
  {
    if a.Array? then a.items[k] == b.items[k] else a.fields[k] == b.fields[k]
  }

  lemma PartStart(v: Value, k: nat)
    requires (v.Array? || v.Object?) && k < |Parts(v)|
    ensures Parts(v)[k] != [] && !EndChar(Parts(v)[k][0])
  {
    if v.Array? {
      PrintStart(v.items[k]);
    }
  }

  lemma {:induction false} PartCancels(a: Value, b: Value, k: nat, x: string, y: string)
    requires a.Array? || a.Object?
    requires b.Array? == a.Array? && b.Object? == a.Object?
    requires k < |Parts(a)| && k < |Parts(b)|
    requires Parts(a)[k] + x == Parts(b)[k] + y && Ends(x) && Ends(y)
    ensures SameElement(a, b, k) && x == y
    decreases a, 0, 0, 0
  {
    hide Print, Quote;
    if a.Array? {
      PrintCancels(a.items[k], b.items[k], x, y);
    } else {
      var f, g := a.fields[k], b.fields[k];
      assert PrintField(f) + x == Quote(f.key) + ([':'] + (Print(f.val) + x));
      assert PrintField(g) + y == Quote(g.key) + ([':'] + (Print(g.val) + y));
      QuoteCancels(f.key, g.key, [':'] + (Print(f.val) + x), [':'] + (Print(g.val) + y));
      Fronts([':'], Print(f.val) + x, [':'], Print(g.val) + y);
      PrintCancels(f.val, g.val, x, y);
    }
  }

  lemma RestFrom(parts: seq<string>, close: char, k: nat, x: string)
    requires k <= |parts|
    ensures k == |parts| ==> Rest(parts[k..], close) + x == [close] + x
    ensures k < |parts| ==>
              Rest(parts[k..], close) + x == [','] + (parts[k] + Rest(parts[k + 1..], close) + x)
  {
    if k < |parts| {
      assert parts[k..][1..] == parts[k + 1..];
    }
  }

  /** From the k-th part on, printed containers of one kind have the same parts. */
  lemma {:induction false} RestCancels(a: Value, b: Value, k: nat, x: string, y: string)
    requires a.Array? || a.Object?
    requires b.Array? == a.Array? && b.Object? == a.Object?
    requires k <= |Parts(a)| && k <= |Parts(b)|
    requires Rest(Parts(a)[k..], Close(a)) + x == Rest(Parts(b)[k..], Close(a)) + y
    ensures |Parts(a)| == |Parts(b)| && x == y
    ensures forall i :: k <= i < |Parts(a)| ==> SameElement(a, b, i)
    decreases a, 1, |Parts(a)| - k, 1
  {
    hide Parts, Rest, SameElement;
    var p, q, c := Parts(a), Parts(b), Close(a);
    RestFrom(p, c, k, x);
    RestFrom(q, c, k, y);
    var u := if k < |p| then p[k] + Rest(p[k + 1..], c) + x else x;
    var v := if k < |q| then q[k] + Rest(q[k + 1..], c) + y else y;
    Fronts([if k < |p| then ',' else c], u, [if k < |q| then ',' else c], v);
    if k < |p| {
      TwoParts(a, b, k, x, y);
    }
  }

  /** One part and the rest behind it. */
  lemma {:induction false} TwoParts(a: Value, b: Value, k: nat, x: string, y: string)
    requires a.Array? || a.Object?
    requires b.Array? == a.Array? && b.Object? == a.Object?
    requires k < |Parts(a)| && k < |Parts(b)|
    requires Parts(a)[k] + Rest(Parts(a)[k + 1..], Close(a)) + x == Parts(b)[k] + Rest(Parts(b)[k + 1..], Close(a)) + y
    ensures |Parts(a)| == |Parts(b)| && x == y
    ensures forall i :: k <= i < |Parts(a)| ==> SameElement(a, b, i)
    decreases a, 1, |Parts(a)| - k, 0
  {
    hide Parts, Rest, SameElement;
    var p, q, c := Parts(a), Parts(b), Close(a);
    var u, v := Rest(p[k + 1..], c) + x, Rest(q[k + 1..], c) + y;
    assert p[k] + Rest(p[k + 1..], c) + x == p[k] + u && q[k] + Rest(q[k + 1..], c) + y == q[k] + v;
    RestFrom(p, c, k + 1, x);
    RestFrom(q, c, k + 1, y);
    PartCancels(a, b, k, u, v);
    RestCancels(a, b, k + 1, x, y);
  }

  /** Printing is unambiguous even in front of what may follow a value. */
  lemma {:induction false} PrintCancels(a: Value, b: Value, x: string, y: string)
    requires Print(a) + x == Print(b) + y && Ends(x) && Ends(y)
    ensures a == b && x == y
    decreases a, 2, 0, 0
  {
    SameKind(a, b, x, y);
    if !a.Array? && !a.Object? {
      ScalarCancels(a, b, x, y);
    } else {
      ContainerCancels(a, b, x, y);
    }
  }

  lemma PrintedContainer(v: Value, x: string)
    requires v.Array? || v.Object?
    ensures Print(v) + x == [if v.Array? then '[' else '{'] + (First(Parts(v), Close(v)) + x)
  {
    hide PrintField, First;
    assert Print(v) == Bracketed(if v.Array? then '[' else '{', Parts(v), Close(v));
  }

  lemma {:induction false} ContainerCancels(a: Value, b: Value, x: string, y: string)
    requires a.Array? || a.Object?
    requires b.Array? == a.Array? && b.Object? == a.Object?
    requires Print(a) + x == Print(b) + y
    ensures a == b && x == y
    decreases a, 1, |Parts(a)| + 1, 0
  {
    hide Print, First, Parts, SameElement;
    var p, q, c := Parts(a), Parts(b), Close(a);
    var open := if a.Array? then '[' else '{';
    PrintedContainer(a, x);
    PrintedContainer(b, y);
    Fronts([open], First(p, c) + x, [open], First(q, c) + y);
    FirstCancels(a, b, x, y);
    ElementsMakeValues(a, b);
  }

  lemma ElementsMakeValues(a: Value, b: Value)
    requires a.Array? || a.Object?
    requires b.Array? == a.Array? && b.Object? == a.Object? && |Parts(a)| == |Parts(b)|
    requires forall i :: 0 <= i < |Parts(a)| ==> SameElement(a, b, i)
    ensures a == b
  {
    if a.Array? {
      forall i | 0 <= i < |a.items|
        ensures a.items[i] == b.items[i]
      {
        assert SameElement(a, b, i);
      }
    } else {
      forall i | 0 <= i < |a.fields|
        ensures a.fields[i] == b.fields[i]
      {
        assert SameElement(a, b, i);
      }
    }
  }

  lemma {:induction false} FirstCancels(a: Value, b: Value, x: string, y: string)
    requires a.Array? || a.Object?
    requires b.Array? == a.Array? && b.Object? == a.Object?
    requires First(Parts(a), Close(a)) + x == First(Parts(b), Close(a)) + y
    ensures |Parts(a)| == |Parts(b)| && x == y
    ensures forall i :: 0 <= i < |Parts(a)| ==> SameElement(a, b, i)
    decreases a, 1, |Parts(a)|, 1
  {
    hide Parts, Rest, SameElement;
    var p, q, c := Parts(a), Parts(b), Close(a);
    if p != [] && q != [] {
      TwoParts(a, b, 0, x, y);
    } else if p == [] && q == [] {
      Fronts([c], x, [c], y);
    } else if p == [] {
      PartStart(b, 0);
      assert First(q, c) + y == q[0] + (Rest(q[1..], c) + y);
      Fronts([c], x, q[0], Rest(q[1..], c) + y);
      assert false;
    } else {
      PartStart(a, 0);
      assert First(p, c) + x == p[0] + (Rest(p[1..], c) + x);
      Fronts(p[0], Rest(p[1..], c) + x, [c], y);
      assert false;
    }
  }

  /** Two values print to the same bytes only if they are the same. */
  lemma JsonInjective(a: Value, b: Value)
    ensures JsonBytes(a) == JsonBytes(b) <==> a == b
  {
    if JsonBytes(a) == JsonBytes(b) {
      hide Print, Utf8All;
      Utf8Injective(Print(a), Print(b));
      assert Print(a) + [] == Print(b) + [];
      PrintCancels(a, b, [], []);
    }
  }
}
