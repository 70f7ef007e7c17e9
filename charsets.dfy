/**
 * The five character sets the configuration engine names (UTF-8, Windows-1251,
 * KOI8-R, CP866 and ISO-8859-1) as Java's codecs behave on them: decoding
 * replaces what it cannot map by U+FFFD, `canEncode` asks whether every
 * character has a byte form, and `Charset.forName` looks a name up among the
 * canonical names and aliases without regard to case.
 */
module Charsets {
  import opened Wrappers
  import opened JavaText
  import opened CharsetNames

  type byte = b: int | 0 <= b < 256

  /** U+FFFD, what a lenient decoder puts in place of bytes it cannot map. */
  const Replacement: char := '\U{FFFD}'

  // ---------------------------------------------------------------- single-byte charsets

  predicate IsSingleByte(cs: Charset) {
    cs != Utf8
  }

  /**
   * What bytes 0x80..0xFF decode to; bytes below 0x80 are ASCII in all four
   * single-byte charsets. Java's windows-1251 leaves 0x98 unmapped.
   */
  function UpperHalf(cs: Charset): (t: string)
    requires IsSingleByte(cs)
    ensures |t| == 128
  {
    match cs
    case Windows1251 =>
      "\U{0402}\U{0403}\U{201A}\U{0453}\U{201E}\U{2026}\U{2020}\U{2021}\U{20AC}\U{2030}\U{0409}\U{2039}\U{040A}\U{040C}\U{040B}\U{040F}" +
      "\U{0452}\U{2018}\U{2019}\U{201C}\U{201D}\U{2022}\U{2013}\U{2014}\U{FFFD}\U{2122}\U{0459}\U{203A}\U{045A}\U{045C}\U{045B}\U{045F}" +
      "\U{00A0}\U{040E}\U{045E}\U{0408}\U{00A4}\U{0490}\U{00A6}\U{00A7}\U{0401}\U{00A9}\U{0404}\U{00AB}\U{00AC}\U{00AD}\U{00AE}\U{0407}" +
      "\U{00B0}\U{00B1}\U{0406}\U{0456}\U{0491}\U{00B5}\U{00B6}\U{00B7}\U{0451}\U{2116}\U{0454}\U{00BB}\U{0458}\U{0405}\U{0455}\U{0457}" +
      "\U{0410}\U{0411}\U{0412}\U{0413}\U{0414}\U{0415}\U{0416}\U{0417}\U{0418}\U{0419}\U{041A}\U{041B}\U{041C}\U{041D}\U{041E}\U{041F}" +
      "\U{0420}\U{0421}\U{0422}\U{0423}\U{0424}\U{0425}\U{0426}\U{0427}\U{0428}\U{0429}\U{042A}\U{042B}\U{042C}\U{042D}\U{042E}\U{042F}" +
      "\U{0430}\U{0431}\U{0432}\U{0433}\U{0434}\U{0435}\U{0436}\U{0437}\U{0438}\U{0439}\U{043A}\U{043B}\U{043C}\U{043D}\U{043E}\U{043F}" +
      "\U{0440}\U{0441}\U{0442}\U{0443}\U{0444}\U{0445}\U{0446}\U{0447}\U{0448}\U{0449}\U{044A}\U{044B}\U{044C}\U{044D}\U{044E}\U{044F}"
    case Koi8R =>
      "\U{2500}\U{2502}\U{250C}\U{2510}\U{2514}\U{2518}\U{251C}\U{2524}\U{252C}\U{2534}\U{253C}\U{2580}\U{2584}\U{2588}\U{258C}\U{2590}" +
      "\U{2591}\U{2592}\U{2593}\U{2320}\U{25A0}\U{2219}\U{221A}\U{2248}\U{2264}\U{2265}\U{00A0}\U{2321}\U{00B0}\U{00B2}\U{00B7}\U{00F7}" +
      "\U{2550}\U{2551}\U{2552}\U{0451}\U{2553}\U{2554}\U{2555}\U{2556}\U{2557}\U{2558}\U{2559}\U{255A}\U{255B}\U{255C}\U{255D}\U{255E}" +
      "\U{255F}\U{2560}\U{2561}\U{0401}\U{2562}\U{2563}\U{2564}\U{2565}\U{2566}\U{2567}\U{2568}\U{2569}\U{256A}\U{256B}\U{256C}\U{00A9}" +
      "\U{044E}\U{0430}\U{0431}\U{0446}\U{0434}\U{0435}\U{0444}\U{0433}\U{0445}\U{0438}\U{0439}\U{043A}\U{043B}\U{043C}\U{043D}\U{043E}" +
      "\U{043F}\U{044F}\U{0440}\U{0441}\U{0442}\U{0443}\U{0436}\U{0432}\U{044C}\U{044B}\U{0437}\U{0448}\U{044D}\U{0449}\U{0447}\U{044A}" +
      "\U{042E}\U{0410}\U{0411}\U{0426}\U{0414}\U{0415}\U{0424}\U{0413}\U{0425}\U{0418}\U{0419}\U{041A}\U{041B}\U{041C}\U{041D}\U{041E}" +
      "\U{041F}\U{042F}\U{0420}\U{0421}\U{0422}\U{0423}\U{0416}\U{0412}\U{042C}\U{042B}\U{0417}\U{0428}\U{042D}\U{0429}\U{0427}\U{042A}"
    case Cp866 =>
      "\U{0410}\U{0411}\U{0412}\U{0413}\U{0414}\U{0415}\U{0416}\U{0417}\U{0418}\U{0419}\U{041A}\U{041B}\U{041C}\U{041D}\U{041E}\U{041F}" +
      "\U{0420}\U{0421}\U{0422}\U{0423}\U{0424}\U{0425}\U{0426}\U{0427}\U{0428}\U{0429}\U{042A}\U{042B}\U{042C}\U{042D}\U{042E}\U{042F}" +
      "\U{0430}\U{0431}\U{0432}\U{0433}\U{0434}\U{0435}\U{0436}\U{0437}\U{0438}\U{0439}\U{043A}\U{043B}\U{043C}\U{043D}\U{043E}\U{043F}" +
      "\U{2591}\U{2592}\U{2593}\U{2502}\U{2524}\U{2561}\U{2562}\U{2556}\U{2555}\U{2563}\U{2551}\U{2557}\U{255D}\U{255C}\U{255B}\U{2510}" +
      "\U{2514}\U{2534}\U{252C}\U{251C}\U{2500}\U{253C}\U{255E}\U{255F}\U{255A}\U{2554}\U{2569}\U{2566}\U{2560}\U{2550}\U{256C}\U{2567}" +
      "\U{2568}\U{2564}\U{2565}\U{2559}\U{2558}\U{2552}\U{2553}\U{256B}\U{256A}\U{2518}\U{250C}\U{2588}\U{2584}\U{258C}\U{2590}\U{2580}" +
      "\U{0440}\U{0441}\U{0442}\U{0443}\U{0444}\U{0445}\U{0446}\U{0447}\U{0448}\U{0449}\U{044A}\U{044B}\U{044C}\U{044D}\U{044E}\U{044F}" +
      "\U{0401}\U{0451}\U{0404}\U{0454}\U{0407}\U{0457}\U{040E}\U{045E}\U{00B0}\U{2219}\U{00B7}\U{221A}\U{2116}\U{00A4}\U{25A0}\U{00A0}"
    case Iso88591 =>
      seq(128, i requires 0 <= i < 128 => (128 + i) as char)
  }

  function DecodeByte(cs: Charset, b: byte): char
    requires IsSingleByte(cs)
  {
    if b < 128 then b as char else UpperHalf(cs)[b - 128]
  }

  /** Index of the first occurrence of `c` in `t`. */
  function Find(t: string, c: char): (r: Option<nat>)
    ensures r.Some? ==> r.value < |t| && t[r.value] == c
    ensures r.None? ==> c !in t
  {
    if t == [] then None
    else if t[0] == c then Some(0)
    else match Find(t[1..], c)
      case None => None
      case Some(i) => Some(i + 1)
  }

  /** The byte a single-byte charset writes for `c`, if it has one; U+FFFD has none. */
  function EncodeByte(cs: Charset, c: char): (r: Option<byte>)
    requires IsSingleByte(cs)
    ensures r.Some? ==> DecodeByte(cs, r.value) == c
  {
    if c < 128 as char then Some(c as int)
    else if c == Replacement then None
    else match Find(UpperHalf(cs), c)
      case None => None
      case Some(i) => Some(128 + i)
  }

  // ---------------------------------------------------------------- UTF-8

  predicate IsContinuation(b: byte) {
    0x80 <= b <= 0xBF
  }

  /**
   * The range the second byte of a multi-byte sequence must fall in for the
   * decoder to read on (no overlong forms, nothing past U+10FFFF). Surrogates
   * are not refused here: the decoder rejects them only once all three bytes
   * are in.
   */
  predicate SecondByteOk(lead: byte, b: byte) {
    if lead == 0xE0 then 0xA0 <= b <= 0xBF
    else if lead == 0xF0 then 0x90 <= b <= 0xBF
    else if lead == 0xF4 then 0x80 <= b <= 0x8F
    else IsContinuation(b)
  }

  /** One decoding step: how many bytes it consumes, the character it yields, and whether they were well formed. */
  datatype Step = Step(len: nat, ch: char, ok: bool)

  /**
   * The decoder's step at the start of `b`: a well-formed sequence yields its
   * character; otherwise the bytes the decoder had read as one sequence before
   * it found the fault (at least one) become one U+FFFD. For a lead byte of
   * 0xED that is not the longest well-formed prefix: ED A0..BF passes the
   * second-byte check, so ED A0 80 (an encoded surrogate) is one U+FFFD for
   * all three bytes, and ED A0 followed by anything else, or by nothing, is
   * one U+FFFD for two.
   */
  function Utf8Next(b: seq<byte>): (r: Step)
    requires |b| > 0
    ensures 1 <= r.len <= |b| && r.len <= 4
    ensures !r.ok ==> r.ch == Replacement
  {
    var b0 := b[0] as int;
    if b0 < 0x80 then Step(1, b0 as char, true)
    else if 0xC2 <= b0 <= 0xDF then
      if |b| >= 2 && IsContinuation(b[1]) then Step(2, ((b0 - 0xC0) * 64 + (b[1] as int - 0x80)) as char, true)
      else Step(1, Replacement, false)
    else if 0xE0 <= b0 <= 0xEF then
      if |b| < 2 || !SecondByteOk(b0, b[1]) then Step(1, Replacement, false)
      else if |b| < 3 || !IsContinuation(b[2]) then Step(2, Replacement, false)
      else if b0 == 0xED && b[1] >= 0xA0 then Step(3, Replacement, false)
      else Step(3, ((b0 - 0xE0) * 4096 + (b[1] as int - 0x80) * 64 + (b[2] as int - 0x80)) as char, true)
    else if 0xF0 <= b0 <= 0xF4 then
      if |b| < 2 || !SecondByteOk(b0, b[1]) then Step(1, Replacement, false)
      else if |b| < 3 || !IsContinuation(b[2]) then Step(2, Replacement, false)
      else if |b| < 4 || !IsContinuation(b[3]) then Step(3, Replacement, false)
      else Step(4, ((b0 - 0xF0) * 262144 + (b[1] as int - 0x80) * 4096 + (b[2] as int - 0x80) * 64 + (b[3] as int - 0x80)) as char, true)
    else Step(1, Replacement, false)
  }

  /** `new String(bytes, UTF_8)`: malformed input becomes U+FFFD. */
  function Utf8Decode(b: seq<byte>): string
    decreases |b|
  {
    if b == [] then [] else var st := Utf8Next(b); [st.ch] + Utf8Decode(b[st.len..])
  }

  /**
   * An encoded surrogate is one U+FFFD for all three bytes, and one for its
   * first two when the third is not a continuation byte or is missing; a
   * strict decoder refuses it.
   */
  lemma EncodedSurrogateDecoding()
    ensures Utf8Decode([0xED, 0xA0, 0x80]) == [Replacement]
    ensures Utf8Decode([0xED, 0xA0, 0x41]) == [Replacement, 'A']
    ensures Utf8Decode([0xED, 0xA0]) == [Replacement]
    ensures !Utf8WellFormed([0xED, 0xA0, 0x80])
  {
    var a: seq<byte> := [0xED, 0xA0, 0x80];
    assert a[3..] == [];
    var b: seq<byte> := [0xED, 0xA0, 0x41];
    assert b[2..] == [0x41] && Utf8Decode([0x41]) == ['A'];
    var c: seq<byte> := [0xED, 0xA0];
    assert c[2..] == [];
  }

  /** Every decoding step is well formed: a strict (REPORT) decoder accepts `b`. */
  predicate Utf8WellFormed(b: seq<byte>)
    decreases |b|
  {
    b == [] || (Utf8Next(b).ok && Utf8WellFormed(b[Utf8Next(b).len..]))
  }

  /** The UTF-8 form of one character. */
  function Utf8EncodeChar(c: char): (r: seq<byte>)
    ensures 1 <= |r| <= 4
  {
    var x := c as int;
    if x < 0x80 then [x]
    else if x < 0x800 then [0xC0 + x / 64, 0x80 + x % 64]
    else if x < 0x10000 then [0xE0 + x / 4096, 0x80 + (x / 64) % 64, 0x80 + x % 64]
    else [0xF0 + x / 262144, 0x80 + (x / 4096) % 64, 0x80 + (x / 64) % 64, 0x80 + x % 64]
  }

  /** `s.getBytes(UTF_8)`. */
  function Utf8Encode(s: string): seq<byte>
  {
    if s == [] then [] else Utf8EncodeChar(s[0]) + Utf8Encode(s[1..])
  }

  lemma NestedDivision(x: nat)
    ensures x / 4096 == (x / 64) / 64
    ensures x / 262144 == (x / 4096) / 64
  {
    var q := x / 64;
    assert x == 64 * q + x % 64;
    assert q == 64 * (q / 64) + q % 64;
    assert x == 4096 * (q / 64) + 64 * (q % 64) + x % 64;
    var h := x / 4096;
    assert x == 4096 * h + x % 4096;
    assert h == 64 * (h / 64) + h % 64;
    assert x == 262144 * (h / 64) + 4096 * (h % 64) + x % 4096;
  }

  lemma Utf8NextOfTwoBytes(c: char, rest: seq<byte>)
    requires 0x80 <= c as int < 0x800
    ensures Utf8Next(Utf8EncodeChar(c) + rest) == Step(2, c, true)
  {
    var x := c as int;
    var b := Utf8EncodeChar(c) + rest;
    assert x == 64 * (x / 64) + x % 64;
    assert b[0] == 0xC0 + x / 64 && b[1] == 0x80 + x % 64;
  }

  lemma Utf8NextOfThreeBytes(c: char, rest: seq<byte>)
    requires 0x800 <= c as int < 0x10000
    ensures Utf8Next(Utf8EncodeChar(c) + rest) == Step(3, c, true)
  {
    var x := c as int;
    var b := Utf8EncodeChar(c) + rest;
    NestedDivision(x);
    var q := x / 64;
    assert x == 64 * q + x % 64;
    assert q == 64 * (q / 64) + q % 64;
    assert b[0] == 0xE0 + q / 64 && b[1] == 0x80 + q % 64 && b[2] == 0x80 + x % 64;
    assert x == 4096 * (q / 64) + 64 * (q % 64) + x % 64;
  }

  lemma Utf8NextOfFourBytes(c: char, rest: seq<byte>)
    requires 0x10000 <= c as int
    ensures Utf8Next(Utf8EncodeChar(c) + rest) == Step(4, c, true)
  {
    var x := c as int;
    var b := Utf8EncodeChar(c) + rest;
    NestedDivision(x);
    var q := x / 64;
    var h := x / 4096;
    assert x == 64 * q + x % 64;
    assert q == 64 * (q / 64) + q % 64;
    assert h == q / 64;
    assert h == 64 * (h / 64) + h % 64;
    assert b[0] == 0xF0 + h / 64 && b[1] == 0x80 + h % 64 && b[2] == 0x80 + q % 64 && b[3] == 0x80 + x % 64;
    assert x == 262144 * (h / 64) + 4096 * (h % 64) + 64 * (q % 64) + x % 64;
  }

  /** Decoding starts by reading back exactly the sequence that encodes one character. */
  lemma Utf8NextOfEncoding(c: char, rest: seq<byte>)
    ensures Utf8Next(Utf8EncodeChar(c) + rest) == Step(|Utf8EncodeChar(c)|, c, true)
  {
    var x := c as int;
    if x < 0x80 {
    } else if x < 0x800 {
      Utf8NextOfTwoBytes(c, rest);
    } else if x < 0x10000 {
      Utf8NextOfThreeBytes(c, rest);
    } else {
      Utf8NextOfFourBytes(c, rest);
    }
  }

  /** The quotient and remainder by 64 of a number written as 64 q + r with a small r. */
  lemma DivModOf64(x: int, q: int, r: int)
    requires x == 64 * q + r && 0 <= r < 64
    ensures x / 64 == q && x % 64 == r
  {
  }

  lemma TwoBytesAreEncoding(b: seq<byte>)
    requires |b| > 0 && Utf8Next(b).ok && 0xC2 <= b[0] <= 0xDF
    ensures Utf8EncodeChar(Utf8Next(b).ch) == b[..2]
  {
    var x := Utf8Next(b).ch as int;
    DivModOf64(x, b[0] as int - 0xC0, b[1] as int - 0x80);
  }

  lemma ThreeBytesAreEncoding(b: seq<byte>)
    requires |b| > 0 && Utf8Next(b).ok && 0xE0 <= b[0] <= 0xEF
    ensures Utf8EncodeChar(Utf8Next(b).ch) == b[..3]
  {
    var x := Utf8Next(b).ch as int;
    var d1 := b[1] as int - 0x80;
    var q := (b[0] as int - 0xE0) * 64 + d1;
    assert x == 64 * q + (b[2] as int - 0x80);
    DivModOf64(x, q, b[2] as int - 0x80);
    DivModOf64(q, b[0] as int - 0xE0, d1);
    NestedDivision(x);
  }

  lemma FourBytesAreEncoding(b: seq<byte>)
    requires |b| > 0 && Utf8Next(b).ok && 0xF0 <= b[0]
    ensures Utf8EncodeChar(Utf8Next(b).ch) == b[..4]
  {
    var x := Utf8Next(b).ch as int;
    var h := (b[0] as int - 0xF0) * 64 + (b[1] as int - 0x80);
    var q := h * 64 + (b[2] as int - 0x80);
    assert x == 64 * q + (b[3] as int - 0x80);
    DivModOf64(x, q, b[3] as int - 0x80);
    DivModOf64(q, h, b[2] as int - 0x80);
    DivModOf64(h, b[0] as int - 0xF0, b[1] as int - 0x80);
    NestedDivision(x);
  }

  /** A well-formed step read exactly the bytes that encode the character it yields. */
  lemma Utf8NextIsEncoding(b: seq<byte>)
    requires |b| > 0 && Utf8Next(b).ok
    ensures Utf8EncodeChar(Utf8Next(b).ch) == b[..Utf8Next(b).len]
  {
    if b[0] < 0x80 {
    } else if b[0] <= 0xDF {
      TwoBytesAreEncoding(b);
    } else if b[0] <= 0xEF {
      ThreeBytesAreEncoding(b);
    } else {
      FourBytesAreEncoding(b);
    }
  }

  /** Decoding what UTF-8 encoding wrote gives back the string, and a strict decoder accepts it. */
  lemma {:induction false} Utf8RoundTrip(s: string)
    ensures Utf8Decode(Utf8Encode(s)) == s
    ensures Utf8WellFormed(Utf8Encode(s))
  {
    if s != [] {
      var e := Utf8EncodeChar(s[0]);
      var b := Utf8Encode(s);
      Utf8NextOfEncoding(s[0], Utf8Encode(s[1..]));
      assert b[|e|..] == Utf8Encode(s[1..]);
      Utf8RoundTrip(s[1..]);
      assert s == [s[0]] + s[1..];
    }
  }

  /** A decode with no U+FFFD in it came from well-formed bytes. */
  lemma {:induction false} CleanDecodeIsWellFormed(b: seq<byte>)
    requires Replacement !in Utf8Decode(b)
    ensures Utf8WellFormed(b)
    decreases |b|
  {
    if b != [] {
      var st := Utf8Next(b);
      assert Utf8Decode(b) == [st.ch] + Utf8Decode(b[st.len..]);
      CleanDecodeIsWellFormed(b[st.len..]);
    }
  }

  // ---------------------------------------------------------------- the codec interface

  /** `new String(bytes, cs)`. */
  function Decode(cs: Charset, b: seq<byte>): string
  {
    if cs == Utf8 then Utf8Decode(b) else seq(|b|, i requires 0 <= i < |b| => DecodeByte(cs, b[i]))
  }

  /** `cs.newEncoder().canEncode(s)`. UTF-8 encodes every character. */
  predicate CanEncode(cs: Charset, s: string) {
    cs == Utf8 || forall i :: 0 <= i < |s| ==> EncodeByte(cs, s[i]).Some?
  }

  /** The bytes `cs` writes for `s`. */
  function Encode(cs: Charset, s: string): (r: seq<byte>)
    requires CanEncode(cs, s)
    ensures IsSingleByte(cs) ==> |r| == |s|
  {
    if cs == Utf8 then Utf8Encode(s) else seq(|s|, i requires 0 <= i < |s| => EncodeByte(cs, s[i]).value)
  }

  /** What a charset can encode, it decodes back unchanged. */
  lemma DecodeEncode(cs: Charset, s: string)
    requires CanEncode(cs, s)
    ensures Decode(cs, Encode(cs, s)) == s
  {
    if cs == Utf8 {
      Utf8RoundTrip(s);
    }
  }

  predicate IsAscii(s: string) {
    forall i :: 0 <= i < |s| ==> s[i] < 128 as char
  }

  function AsciiBytes(s: string): (r: seq<byte>)
    requires IsAscii(s)
    ensures |r| == |s|
  {
    seq(|s|, i requires 0 <= i < |s| => s[i] as int)
  }

  /** Every charset encodes ASCII text, one byte per character, to the same bytes. */
  lemma {:induction false} AsciiEncodesIdentically(cs: Charset, s: string)
    requires IsAscii(s)
    ensures CanEncode(cs, s) && Encode(cs, s) == AsciiBytes(s)
  {
    if cs == Utf8 && s != [] {
      AsciiEncodesIdentically(cs, s[1..]);
      assert Utf8Encode(s) == [s[0] as int] + AsciiBytes(s[1..]);
    }
  }

  /** ISO-8859-1 maps every byte to a character, so its decode never contains U+FFFD. */
  lemma Iso88591NeverReplaces(b: seq<byte>)
    ensures Replacement !in Decode(Iso88591, b)
  {
    var d := Decode(Iso88591, b);
    forall i | 0 <= i < |d| ensures d[i] != Replacement {
      assert d[i] == DecodeByte(Iso88591, b[i]);
    }
  }

  /** Every byte below 0x80 decodes to the same ASCII character in every charset. */
  lemma {:induction false} DecodeAscii(cs: Charset, s: string)
    requires IsAscii(s)
    ensures Decode(cs, AsciiBytes(s)) == s
  {
    AsciiEncodesIdentically(cs, s);
    DecodeEncode(cs, s);
  }
}
