/** The in-tree hex codec. Text is its UTF-8 bytes, as the source's loops see it. */
module Hex {
  import opened Basics
  import opened Ordering

  type Text = Bytes

  datatype HexError =
    | OddLength(length: nat)
    | InvalidCharacter(c: u8)
    | WrongDigestLength(bytes: nat)

  function NibbleToHex(n: u8): u8
    requires n < 16
  {
    if n < 10 then '0' as int + n else 'a' as int + n - 10
  }

  function HexToNibble(c: u8): (r: Result<u8, HexError>)
    ensures r.Ok? ==> r.value < 16
  {
    if '0' as int <= c <= '9' as int then Ok(c - '0' as int)
    else if 'a' as int <= c <= 'f' as int then Ok(c - 'a' as int + 10)
    else if 'A' as int <= c <= 'F' as int then Ok(c - 'A' as int + 10)
    else Err(InvalidCharacter(c))
  }

  /** Two lowercase digits per byte, high nibble first. */
  function Encode(bytes: Bytes): (t: Text)
    ensures |t| == 2 * |bytes|
  {
    if bytes == [] then []
    else [NibbleToHex(bytes[0] / 16), NibbleToHex(bytes[0] % 16)] + Encode(bytes[1..])
  }

  /** Bytes of an even-length text, or the first character that is not a hex digit. */
  function DecodePairs(t: Text): (r: Result<Bytes, HexError>)
    requires |t| % 2 == 0
    ensures r.Ok? ==> |r.value| == |t| / 2
  {
    if t == [] then Ok([])
    else
      match HexToNibble(t[0])
      case Err(e) => Err(e)
      case Ok(hi) =>
        match HexToNibble(t[1])
        case Err(e) => Err(e)
        case Ok(lo) =>
          match DecodePairs(t[2..])
          case Err(e) => Err(e)
          case Ok(rest) => Ok([hi * 16 + lo] + rest)
  }

  function Decode(t: Text): Result<Bytes, HexError> {
    if |t| % 2 != 0 then Err(OddLength(|t|)) else DecodePairs(t)
  }

  function Decode32(t: Text): Result<Digest, HexError> {
    match Decode(t)
    case Err(e) => Err(e)
    case Ok(v) => if |v| != 32 then Err(WrongDigestLength(|v|)) else Ok(v)
  }

  lemma EncodeNext(bytes: Bytes, i: nat)
    requires i < |bytes|
    ensures Encode(bytes[i..]) ==
            [NibbleToHex(bytes[i] / 16), NibbleToHex(bytes[i] % 16)] + Encode(bytes[i + 1..])
  {
    assert bytes[i..][1..] == bytes[i + 1..];
  }

  lemma NothingToEncode()
    ensures Encode([]) == []
  {
  }

  method EncodeLoop(bytes: Bytes) returns (out: Text)
    ensures out == Encode(bytes)
  {
    hide NibbleToHex, Encode;
    out := [];
    assert bytes[0..] == bytes && [] + Encode(bytes) == Encode(bytes);
    for i := 0 to |bytes|
      invariant out + Encode(bytes[i..]) == Encode(bytes)
    {
      EncodeNext(bytes, i);
      var high, low := NibbleToHex(bytes[i] / 16), NibbleToHex(bytes[i] % 16);
      assert out + ([high, low] + Encode(bytes[i + 1..])) == (out + [high] + [low]) + Encode(bytes[i + 1..]);
      out := out + [high];
      out := out + [low];
    }
    NothingToEncode();
    assert bytes[|bytes|..] == [] && out + [] == out;
  }

  lemma DecodeNext(t: Text, i: nat)
    requires |t| % 2 == 0 && i % 2 == 0 && i < |t|
    ensures var hi, lo, rest := HexToNibble(t[i]), HexToNibble(t[i + 1]), DecodePairs(t[i + 2..]);
            DecodePairs(t[i..]) ==
            if hi.Err? then Err(hi.error)
            else if lo.Err? then Err(lo.error)
            else if rest.Err? then rest
            else Ok([hi.value * 16 + lo.value] + rest.value)
  {
    assert t[i..][2..] == t[i + 2..];
  }

  lemma NothingToDecode()
    ensures DecodePairs([]) == Ok([])
  {
  }

  method DecodeLoop(t: Text) returns (r: Result<Bytes, HexError>)
    ensures r == Decode(t)
  {
    hide HexToNibble, DecodePairs;
    if |t| % 2 != 0 {
      return Err(OddLength(|t|));
    }
    var out: Bytes := [];
    var i := 0;
    assert t[0..] == t;
    assert DecodePairs(t).Ok? ==> [] + DecodePairs(t).value == DecodePairs(t).value;
    while i < |t|
      invariant 0 <= i <= |t| && i % 2 == 0
      invariant DecodePairs(t[i..]).Ok? ==> Decode(t) == Ok(out + DecodePairs(t[i..]).value)
      invariant DecodePairs(t[i..]).Err? ==> Decode(t) == DecodePairs(t[i..])
    {
      DecodeNext(t, i);
      var hi := HexToNibble(t[i]);
      if hi.Err? {
        return Err(hi.error);
      }
      var lo := HexToNibble(t[i + 1]);
      if lo.Err? {
        return Err(lo.error);
      }
      ghost var rest := DecodePairs(t[i + 2..]);
      assert rest.Ok? ==>
               out + ([hi.value * 16 + lo.value] + rest.value) == (out + [hi.value * 16 + lo.value]) + rest.value;
      out := out + [hi.value * 16 + lo.value];
      i := i + 2;
    }
    NothingToDecode();
    assert t[i..] == [] && out + [] == out;
    r := Ok(out);
  }

  lemma DigitsOfByte(b: u8)
    ensures HexToNibble(NibbleToHex(b / 16)) == Ok(b / 16) && HexToNibble(NibbleToHex(b % 16)) == Ok(b % 16)
  {
  }

  lemma {:induction false} DecodeOfEncode(bytes: Bytes)
    ensures Decode(Encode(bytes)) == Ok(bytes)
  {
    if bytes != [] {
      DecodeOfEncode(bytes[1..]);
      assert Encode(bytes)[2..] == Encode(bytes[1..]);
      DigitsOfByte(bytes[0]);
      assert bytes == [bytes[0]] + bytes[1..];
    }
  }

  lemma Decode32OfEncode(d: Digest)
    ensures Decode32(Encode(d)) == Ok(d)
  {
    DecodeOfEncode(d);
  }

  predicate IsHexDigit(c: u8) {
    '0' as int <= c <= '9' as int || 'a' as int <= c <= 'f' as int || 'A' as int <= c <= 'F' as int
  }

  function Lowercase(t: Text): (r: Text)
    ensures |r| == |t|
  {
    seq(|t|, i requires 0 <= i < |t| => if 'A' as int <= t[i] <= 'Z' as int then t[i] + 32 else t[i])
  }

  /** Exactly the even-length hex texts decode, and what they decode to re-encodes to the
      text in lower case. */
  lemma {:induction false} DecodeAccepts(t: Text)
    ensures Decode(t).Ok? <==> |t| % 2 == 0 && forall i :: 0 <= i < |t| ==> IsHexDigit(t[i])
    ensures Decode(t).Ok? ==> Encode(Decode(t).value) == Lowercase(t)
  {
    if |t| % 2 == 0 && t != [] {
      DecodeAccepts(t[2..]);
      assert forall i :: 2 <= i < |t| ==> t[i] == t[2..][i - 2];
      if Decode(t).Ok? {
        var v := Decode(t).value;
        DecodedDigits(t[0], t[1], v[0]);
        assert v[1..] == Decode(t[2..]).value;
        assert Encode(v) == Lowercase([t[0], t[1]]) + Lowercase(t[2..]);
      }
    }
  }

  lemma DecodedDigits(c: u8, d: u8, b: u8)
    requires HexToNibble(c).Ok? && HexToNibble(d).Ok? && b == HexToNibble(c).value * 16 + HexToNibble(d).value
    ensures [NibbleToHex(b / 16), NibbleToHex(b % 16)] == Lowercase([c, d])
  {
  }

  /** Encoding preserves and reflects the byte order, so hex ordering keys compare as the
      digests they stand for. */
  lemma {:induction false} EncodePreservesOrder(a: Bytes, b: Bytes)
    ensures LexLess(a, b) <==> LexLess(Encode(a), Encode(b))
    decreases |a|
  {
    if a != [] && b != [] {
      var x, y := Encode(a), Encode(b);
      assert x[1..][1..] == Encode(a[1..]) && y[1..][1..] == Encode(b[1..]);
      EncodePreservesOrder(a[1..], b[1..]);
      assert LexLess(x, y) <==> (x[0] < y[0] || (x[0] == y[0] && LexLess(x[1..], y[1..])));
      assert LexLess(x[1..], y[1..]) <==> (x[1] < y[1] || (x[1] == y[1] && LexLess(x[1..][1..], y[1..][1..])));
      assert a[0] < b[0] <==> a[0] / 16 < b[0] / 16 || (a[0] / 16 == b[0] / 16 && a[0] % 16 < b[0] % 16);
    }
  }

  lemma {:induction false} FirstBadDigit(t: Text) returns (i: nat)
    requires |t| % 2 == 0 && DecodePairs(t).Err?
    ensures i < |t| && !IsHexDigit(t[i]) && DecodePairs(t) == Err(InvalidCharacter(t[i]))
    ensures forall j :: 0 <= j < i ==> IsHexDigit(t[j])
  {
    if HexToNibble(t[0]).Err? {
      i := 0;
    } else if HexToNibble(t[1]).Err? {
      i := 1;
    } else {
      i := FirstBadDigit(t[2..]);
      i := i + 2;
    }
  }

  /** Why a text does not decode: an odd length, or else the first character that is no hex digit;
      and a digest is what 64 digits decode to. */
  lemma DecodeReports(t: Text)
    ensures |t| % 2 != 0 ==> Decode(t) == Err(OddLength(|t|))
    ensures |t| % 2 == 0 && Decode(t).Err? ==>
              exists i :: 0 <= i < |t| && !IsHexDigit(t[i]) && Decode(t) == Err(InvalidCharacter(t[i]))
                          && forall j :: 0 <= j < i ==> IsHexDigit(t[j])
    ensures Decode(t).Err? ==> Decode32(t) == Err(Decode(t).error)
    ensures Decode(t).Ok? ==> Decode32(t) == if |t| == 64 then Ok(Decode(t).value) else Err(WrongDigestLength(|t| / 2))
  {
    if |t| % 2 == 0 && Decode(t).Err? {
      var i := FirstBadDigit(t);
      assert !IsHexDigit(t[i]);
    }
  }
}
