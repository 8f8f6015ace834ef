/**
  * Base64 as in section 4 of RFC 4648, as java.util.Base64's basic encoder
  * (which always pads) and basic decoder (which accepts the final unit with or
  * without its padding) implement it; and the conversions between text and
  * bytes that the codecs wrap around it.
  */
module Base64 {
  import opened Wrappers
  import opened JavaText

  type byte = b: int | 0 <= b < 256

  /** The 64 characters of the alphabet, in order of value. */
  predicate IsBase64Char(c: char)
  {
    'A' <= c <= 'Z' || 'a' <= c <= 'z' || '0' <= c <= '9' || c == '+' || c == '/'
  }

  /** The characters an encoder may emit: the alphabet and the pad character. */
  predicate IsEncodedChar(c: char)
  {
    IsBase64Char(c) || c == '='
  }

  function CharOf(v: int): (c: char)
    requires 0 <= v < 64
    ensures IsBase64Char(c)
  {
    if v < 26 then ('A' as int + v) as char
    else if v < 52 then ('a' as int + (v - 26)) as char
    else if v < 62 then ('0' as int + (v - 52)) as char
    else if v == 62 then '+'
    else '/'
  }

  function ValueOf(c: char): (v: int)
    requires IsBase64Char(c)
    ensures 0 <= v < 64 && CharOf(v) == c
  {
    if 'A' <= c <= 'Z' then c as int - 'A' as int
    else if 'a' <= c <= 'z' then c as int - 'a' as int + 26
    else if '0' <= c <= '9' then c as int - '0' as int + 52
    else if c == '+' then 62
    else 63
  }

  lemma ValueOfCharOf(v: int)
    requires 0 <= v < 64
    ensures ValueOf(CharOf(v)) == v
  {
  }

  /** The four six-bit values EncodeUnit writes for three bytes. */
  function UnitValues(b0: byte, b1: byte, b2: byte): (v: (int, int, int, int))
    ensures 0 <= v.0 < 64 && 0 <= v.1 < 64 && 0 <= v.2 < 64 && 0 <= v.3 < 64
  {
    (b0 / 4, (b0 % 4) * 16 + b1 / 16, (b1 % 16) * 4 + b2 / 64, b2 % 64)
  }

  /** Every character of `s` is one an encoder may emit. */
  predicate AllEncoded(s: seq<char>)
  {
    forall i :: 0 <= i < |s| ==> IsEncodedChar(s[i])
  }

  lemma EncodedConcat(x: seq<char>, y: seq<char>)
    requires AllEncoded(x) && AllEncoded(y)
    ensures AllEncoded(x + y)
  {
    forall i | 0 <= i < |x + y|
      ensures IsEncodedChar((x + y)[i])
    {
      if i >= |x| {
        assert (x + y)[i] == y[i - |x|];
      }
    }
  }

  /** A unit of alphabet characters followed by encoded text is encoded text. */
  lemma EncodedAfterUnit(s: seq<char>)
    requires |s| >= 4 && IsBase64Char(s[0]) && IsBase64Char(s[1]) && IsBase64Char(s[2]) && IsBase64Char(s[3])
    requires AllEncoded(s[4..])
    ensures AllEncoded(s)
  {
    forall i | 4 <= i < |s|
      ensures IsEncodedChar(s[i])
    {
      assert s[i] == s[4..][i - 4];
    }
  }

  /** Three bytes as four characters, six bits each. */
  function EncodeUnit(b0: byte, b1: byte, b2: byte): (u: seq<char>)
    ensures |u| == 4 && AllEncoded(u)
  {
    var v := UnitValues(b0, b1, b2);
    [CharOf(v.0), CharOf(v.1), CharOf(v.2), CharOf(v.3)]
  }

  /** One or two final bytes as a unit padded with '=' to four characters. */
  function EncodeFinal(b: seq<byte>): (u: seq<char>)
    requires 1 <= |b| <= 2
    ensures |u| == 4 && AllEncoded(u)
    ensures IsBase64Char(u[0]) && IsBase64Char(u[1]) && u[3] == '='
    ensures u[2] == '=' <==> |b| == 1
  {
    if |b| == 1 then [CharOf(b[0] / 4), CharOf((b[0] % 4) * 16), '=', '=']
    else [CharOf(b[0] / 4), CharOf((b[0] % 4) * 16 + b[1] / 16), CharOf((b[1] % 16) * 4), '=']
  }

  /** Base64.getEncoder().encode: full units, then a padded final unit. */
  function Encode(b: seq<byte>): (s: seq<char>)
    ensures |s| % 4 == 0
    ensures AllEncoded(s)
    decreases |b|
  {
    if |b| == 0 then []
    else if |b| < 3 then EncodeFinal(b)
    else
      var u := EncodeUnit(b[0], b[1], b[2]);
      var rest := Encode(b[3..]);
      EncodedConcat(u, rest);
      u + rest
  }

  /** Four six-bit values as three bytes. */
  function DecodeUnit(v0: int, v1: int, v2: int, v3: int): seq<byte>
    requires 0 <= v0 < 64 && 0 <= v1 < 64 && 0 <= v2 < 64 && 0 <= v3 < 64
  {
    [v0 * 4 + v1 / 16, (v1 % 16) * 16 + v2 / 4, (v2 % 4) * 64 + v3]
  }

  /**
    * Base64.getDecoder().decode: units of four alphabet characters, then an
    * optional final unit of two or three characters, each either bare or with
    * its full padding ("xx", "xx==", "xxx", "xxx="). Anything else, such as a
    * character outside the alphabet, a single leftover character, partial
    * padding or text after the padding, throws IllegalArgumentException. The
    * unused low bits of a final unit are ignored.
    */
  function Decode(s: seq<char>): (r: Option<seq<byte>>)
    ensures r.Some? ==> AllEncoded(s)
    ensures r.Some? ==> |s| % 4 != 1
    decreases |s|
  {
    if |s| == 0 then Some([])
    else if |s| >= 4 && IsBase64Char(s[0]) && IsBase64Char(s[1]) && IsBase64Char(s[2]) && IsBase64Char(s[3]) then
      match Decode(s[4..])
      case None => None
      case Some(rest) =>
        EncodedAfterUnit(s);
        Some(DecodeUnit(ValueOf(s[0]), ValueOf(s[1]), ValueOf(s[2]), ValueOf(s[3])) + rest)
    else DecodeFinal(s)
  }

  /**
    * The final unit: two or three alphabet characters, each bare or with its
    * full padding ("xx", "xx==", "xxx", "xxx=").
    */
  function DecodeFinal(s: seq<char>): (r: Option<seq<byte>>)
    ensures r.Some? ==> AllEncoded(s) && 2 <= |s| <= 4
  {
    if |s| >= 2 && IsBase64Char(s[0]) && IsBase64Char(s[1]) && (s[2..] == "" || s[2..] == "==") then
      Some([ValueOf(s[0]) * 4 + ValueOf(s[1]) / 16])
    else if |s| >= 3 && IsBase64Char(s[0]) && IsBase64Char(s[1]) && IsBase64Char(s[2]) && (s[3..] == "" || s[3..] == "=") then
      Some([ValueOf(s[0]) * 4 + ValueOf(s[1]) / 16, (ValueOf(s[1]) % 16) * 16 + ValueOf(s[2]) / 4])
    else None
  }

  lemma UnitRoundTrip(b0: byte, b1: byte, b2: byte)
    ensures var v := UnitValues(b0, b1, b2);
            DecodeUnit(v.0, v.1, v.2, v.3) == [b0, b1, b2]
  {
    var v := UnitValues(b0, b1, b2);
    assert v.1 / 16 == b0 % 4 && v.1 % 16 == b1 / 16;
    assert v.2 / 4 == b1 % 16 && v.2 % 4 == b2 / 64;
  }

  lemma UnitPrefix(b: seq<byte>)
    requires |b| >= 3
    ensures var v := UnitValues(b[0], b[1], b[2]);
            DecodeUnit(v.0, v.1, v.2, v.3) == b[..3]
  {
    UnitRoundTrip(b[0], b[1], b[2]);
  }

  lemma DecodeEncodeOne(b0: byte)
    ensures Decode(Encode([b0])) == Some([b0])
  {
    var s := Encode([b0]);
    assert s[2..] == "==";
  }

  lemma DecodeEncodeTwo(b0: byte, b1: byte)
    ensures Decode(Encode([b0, b1])) == Some([b0, b1])
  {
    var s := Encode([b0, b1]);
    var v0, v1, v2 := b0 / 4, (b0 % 4) * 16 + b1 / 16, (b1 % 16) * 4;
    assert s == [CharOf(v0), CharOf(v1), CharOf(v2), '='];
    ValueOfCharOf(v0);
    ValueOfCharOf(v1);
    ValueOfCharOf(v2);
    assert !IsBase64Char(s[3]) && s[2] != '=' && s[3..] == "=";
    assert v0 * 4 + v1 / 16 == b0 by {
      assert v1 / 16 == b0 % 4;
    }
    assert (v1 % 16) * 16 + v2 / 4 == b1 by {
      assert v1 % 16 == b1 / 16 && v2 / 4 == b1 % 16;
    }
  }

  lemma EncodeFullUnit(b: seq<byte>)
    requires |b| >= 3
    ensures Encode(b) == EncodeUnit(b[0], b[1], b[2]) + Encode(b[3..])
  {
  }

  /** The first unit of the encoding of three or more bytes: four alphabet characters holding the first three bytes. */
  lemma EncodedFirstUnit(b: seq<byte>)
    requires |b| >= 3
    ensures var s, v := Encode(b), UnitValues(b[0], b[1], b[2]);
      |s| >= 4 && s[4..] == Encode(b[3..])
      && IsBase64Char(s[0]) && IsBase64Char(s[1]) && IsBase64Char(s[2]) && IsBase64Char(s[3])
      && ValueOf(s[0]) == v.0 && ValueOf(s[1]) == v.1 && ValueOf(s[2]) == v.2 && ValueOf(s[3]) == v.3
  {
    var v := UnitValues(b[0], b[1], b[2]);
    var u := EncodeUnit(b[0], b[1], b[2]);
    assert u == [CharOf(v.0), CharOf(v.1), CharOf(v.2), CharOf(v.3)];
    EncodeFullUnit(b);
    var s := u + Encode(b[3..]);
    assert s[4..] == Encode(b[3..]);
    assert s[0] == CharOf(v.0) && s[1] == CharOf(v.1) && s[2] == CharOf(v.2) && s[3] == CharOf(v.3);
    ValueOfCharOf(v.0);
    ValueOfCharOf(v.1);
    ValueOfCharOf(v.2);
    ValueOfCharOf(v.3);
  }

  /** The first unit of the encoding of three or more bytes decodes to those three bytes. */
  lemma FirstUnitDecodes(b: seq<byte>)
    requires |b| >= 3
    ensures var s := Encode(b);
      |s| >= 4 && s[4..] == Encode(b[3..])
      && IsBase64Char(s[0]) && IsBase64Char(s[1]) && IsBase64Char(s[2]) && IsBase64Char(s[3])
      && DecodeUnit(ValueOf(s[0]), ValueOf(s[1]), ValueOf(s[2]), ValueOf(s[3])) + b[3..] == b
  {
    EncodedFirstUnit(b);
    UnitPrefix(b);
    assert b[..3] + b[3..] == b;
  }

  lemma DecodeEncodeStep(b: seq<byte>)
    requires |b| >= 3
    requires Decode(Encode(b[3..])) == Some(b[3..])
    ensures Decode(Encode(b)) == Some(b)
  {
    var s := Encode(b);
    FirstUnitDecodes(b);
    DecodeUnitThen(s, DecodeUnit(ValueOf(s[0]), ValueOf(s[1]), ValueOf(s[2]), ValueOf(s[3])), b[3..]);
  }

  /** A leading unit decoding to `head`, followed by text decoding to `rest`, decodes to both. */
  lemma DecodeUnitThen(s: seq<char>, head: seq<byte>, rest: seq<byte>)
    requires |s| >= 4 && IsBase64Char(s[0]) && IsBase64Char(s[1]) && IsBase64Char(s[2]) && IsBase64Char(s[3])
    requires DecodeUnit(ValueOf(s[0]), ValueOf(s[1]), ValueOf(s[2]), ValueOf(s[3])) == head
    requires Decode(s[4..]) == Some(rest)
    ensures Decode(s) == Some(head + rest)
  {
  }

  /** Decoding undoes encoding, for every byte sequence. */
  lemma {:induction false} DecodeEncode(b: seq<byte>)
    ensures Decode(Encode(b)) == Some(b)
    decreases |b|
  {
    if |b| == 1 {
      DecodeEncodeOne(b[0]);
      assert b == [b[0]];
    } else if |b| == 2 {
      DecodeEncodeTwo(b[0], b[1]);
      assert b == [b[0], b[1]];
    } else if |b| >= 3 {
      DecodeEncode(b[3..]);
      DecodeEncodeStep(b);
    }
  }

  /**
    * The separators of every enclosing format (':', ';' and the line break)
    * and every whitespace character are outside what the encoder emits; this
    * is what makes each split of the enclosing formats unambiguous.
    */
  lemma EncodedCharIsNoSeparator(c: char)
    requires IsEncodedChar(c)
    ensures c != ':' && c != ';' && c != '\n' && !IsWhitespace(c) && c as int < 128
  {
  }

  lemma {:induction false} EncodedTextHasNoSeparator(b: seq<byte>)
    ensures ':' !in Encode(b) && ';' !in Encode(b) && '\n' !in Encode(b)
    ensures NoLeadingWhitespace(Encode(b)) && NoTrailingWhitespace(Encode(b))
  {
    var s := Encode(b);
    forall i | 0 <= i < |s| ensures s[i] != ':' && s[i] != ';' && s[i] != '\n' && !IsWhitespace(s[i]) {
      EncodedCharIsNoSeparator(s[i]);
    }
  }

  /** String.getBytes() of ASCII text: one byte per character, same code. */
  function AsciiBytes(s: string): (b: seq<byte>)
    requires IsAscii(s)
    ensures |b| == |s| && forall i :: 0 <= i < |s| ==> b[i] == s[i] as int
  {
    seq(|s|, i requires 0 <= i < |s| => s[i] as int)
  }

  /** new String(bytes): one character per byte, same code (Latin-1). */
  function Latin1Text(b: seq<byte>): (s: string)
    ensures |s| == |b| && forall i :: 0 <= i < |b| ==> s[i] as int == b[i]
  {
    seq(|b|, i requires 0 <= i < |b| => b[i] as char)
  }

  /** Base64.getEncoder().encodeToString(s.getBytes()). */
  function EncodeText(s: string): (t: string)
    requires IsAscii(s)
    ensures IsAscii(t)
    ensures ':' !in t && ';' !in t && '\n' !in t
    ensures NoLeadingWhitespace(t) && NoTrailingWhitespace(t)
  {
    EncodedTextHasNoSeparator(AsciiBytes(s));
    var t := Encode(AsciiBytes(s));
    assert forall i :: 0 <= i < |t| ==> IsEncodedChar(t[i]);
    t
  }

  /** new String(Base64.getDecoder().decode(t)); a bad input is CorruptData. */
  function DecodeText(t: string): (r: Result<string>)
    ensures r.Ok? ==> Decode(t).Some?
    ensures r.Err? <==> Decode(t).None?
    ensures r.Err? ==> r.error == CorruptData
    ensures r.Ok? ==> r.value == Latin1Text(Decode(t).value)
  {
    match Decode(t)
    case None => Err(CorruptData)
    case Some(b) => Ok(Latin1Text(b))
  }

  /** Decoding the Base64 text of ASCII text gives the text back. */
  lemma TextRoundTrip(s: string)
    requires IsAscii(s)
    ensures DecodeText(EncodeText(s)) == Ok(s)
  {
    DecodeEncode(AsciiBytes(s));
    assert Latin1Text(AsciiBytes(s)) == s;
  }
}
