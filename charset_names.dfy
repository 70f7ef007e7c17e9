/**
 * The five character sets the configuration engine names, and
 * `Charset.forName`: a lookup among canonical names and aliases that ignores
 * case.
 */
module CharsetNames {
  import opened Wrappers
  import opened JavaText

  datatype Charset = Utf8 | Windows1251 | Koi8R | Cp866 | Iso88591

  /** Java's canonical name of each charset (Charset.name()); looking it up again finds the charset. */
  function Name(cs: Charset): (r: string)
    ensures ForName(r) == Some(cs)
  {
    match cs
    case Utf8 => NamesUtf8(); "UTF-8"
    case Windows1251 => NamesWindows1251(); "windows-1251"
    case Koi8R => NamesKoi8R(); "KOI8-R"
    case Cp866 => NamesCp866(); "IBM866"
    case Iso88591 => NamesIso88591(); "ISO-8859-1"
  }

  /** The canonical name and the aliases Java registers, lower-cased. */
  function Aliases(cs: Charset): seq<string>
  {
    match cs
    case Utf8 => ["utf-8", "utf8", "unicode-1-1-utf-8"]
    case Windows1251 => ["windows-1251", "cp1251", "cp5347", "ansi-1251"]
    case Koi8R => ["koi8-r", "koi8_r", "koi8", "cskoi8r"]
    case Cp866 => ["ibm866", "cp866", "ibm-866", "866", "csibm866"]
    case Iso88591 =>
      ["iso-8859-1", "iso8859_1", "iso_8859_1", "iso_8859-1", "iso8859-1", "8859_1", "latin1", "l1",
       "iso-ir-100", "ibm819", "cp819", "csisolatin1", "819", "ibm-819", "iso_8859-1:1987"]
  }

  /**
   * Charset.forName restricted to the five charsets: a case-insensitive lookup
   * among names and aliases. `None` stands for the exception Java throws for an
   * unknown or illegal name.
   */
  function ForName(name: string): (r: Option<Charset>)
    ensures r.Some? ==> ToLowerAscii(name) in Aliases(r.value)
    ensures r.None? ==> forall cs: Charset :: ToLowerAscii(name) !in Aliases(cs)
  {
    var key := ToLowerAscii(name);
    if key in Aliases(Utf8) then Some(Utf8)
    else if key in Aliases(Windows1251) then Some(Windows1251)
    else if key in Aliases(Koi8R) then Some(Koi8R)
    else if key in Aliases(Cp866) then Some(Cp866)
    else if key in Aliases(Iso88591) then Some(Iso88591)
    else None
  }

  /** Lower-casing a name goes piece by piece. */
  lemma LowerOfPieces(a: string, b: string, c: string, la: string, lb: string, lc: string)
    requires ToLowerAscii(a) == la && ToLowerAscii(b) == lb && ToLowerAscii(c) == lc
    ensures ToLowerAscii(a + b + c) == la + lb + lc
  {
    ToLowerAsciiConcat(a + b, c);
    ToLowerAsciiConcat(a, b);
  }

  lemma LowerCaseUtf8()
    ensures ToLowerAscii("UTF-8") == "utf-8"
  {
    assert ToLowerAscii("UT") == "ut";
    assert ToLowerAscii("F-") == "f-";
    assert ToLowerAscii("8") == "8";
    assert "UTF-8" == "UT" + "F-" + "8";
    assert "ut" + "f-" + "8" == "utf-8";
    LowerOfPieces("UT", "F-", "8", "ut", "f-", "8");
  }

  lemma LowerCaseWindows1251()
    ensures ToLowerAscii("windows-1251") == "windows-1251"
  {
    assert ToLowerAscii("wind") == "wind";
    assert ToLowerAscii("ows-") == "ows-";
    assert ToLowerAscii("1251") == "1251";
    assert "windows-1251" == "wind" + "ows-" + "1251";
    assert "wind" + "ows-" + "1251" == "windows-1251";
    LowerOfPieces("wind", "ows-", "1251", "wind", "ows-", "1251");
  }

  lemma LowerCaseKoi8R()
    ensures ToLowerAscii("KOI8-R") == "koi8-r"
  {
    assert ToLowerAscii("KO") == "ko";
    assert ToLowerAscii("I8") == "i8";
    assert ToLowerAscii("-R") == "-r";
    assert "KOI8-R" == "KO" + "I8" + "-R";
    assert "ko" + "i8" + "-r" == "koi8-r";
    LowerOfPieces("KO", "I8", "-R", "ko", "i8", "-r");
  }

  lemma LowerCaseCp866()
    ensures ToLowerAscii("IBM866") == "ibm866"
  {
    assert ToLowerAscii("IB") == "ib";
    assert ToLowerAscii("M8") == "m8";
    assert ToLowerAscii("66") == "66";
    assert "IBM866" == "IB" + "M8" + "66";
    assert "ib" + "m8" + "66" == "ibm866";
    LowerOfPieces("IB", "M8", "66", "ib", "m8", "66");
  }

  lemma LowerCaseIso88591()
    ensures ToLowerAscii("ISO-8859-1") == "iso-8859-1"
  {
    assert ToLowerAscii("ISO-") == "iso-";
    assert ToLowerAscii("885") == "885";
    assert ToLowerAscii("9-1") == "9-1";
    assert "ISO-8859-1" == "ISO-" + "885" + "9-1";
    assert "iso-" + "885" + "9-1" == "iso-8859-1";
    LowerOfPieces("ISO-", "885", "9-1", "iso-", "885", "9-1");
  }

  /** Each canonical name, written out, names its charset. */
  lemma NamesUtf8()
    ensures ForName("UTF-8") == Some(Utf8)
  {
    LowerCaseUtf8();
    ForNameOfAlias("UTF-8", Utf8);
  }

  lemma NamesWindows1251()
    ensures ForName("windows-1251") == Some(Windows1251)
  {
    LowerCaseWindows1251();
    ForNameOfAlias("windows-1251", Windows1251);
  }

  lemma NamesKoi8R()
    ensures ForName("KOI8-R") == Some(Koi8R)
  {
    LowerCaseKoi8R();
    ForNameOfAlias("KOI8-R", Koi8R);
  }

  lemma NamesCp866()
    ensures ForName("IBM866") == Some(Cp866)
  {
    LowerCaseCp866();
    ForNameOfAlias("IBM866", Cp866);
  }

  lemma NamesIso88591()
    ensures ForName("ISO-8859-1") == Some(Iso88591)
  {
    LowerCaseIso88591();
    ForNameOfAlias("ISO-8859-1", Iso88591);
  }

  /** A name whose lower-case form is a charset's first alias names that charset. */
  lemma ForNameOfAlias(name: string, cs: Charset)
    requires ToLowerAscii(name) == Aliases(cs)[0]
    ensures ForName(name) == Some(cs)
  {
    match cs {
      case Utf8 => AliasUtf8(name);
      case Windows1251 => AliasWindows1251(name);
      case Koi8R => AliasKoi8R(name);
      case Cp866 => AliasCp866(name);
      case Iso88591 => AliasIso88591(name);
    }
  }

  lemma AliasUtf8(name: string)
    requires ToLowerAscii(name) == "utf-8"
    ensures ForName(name) == Some(Utf8)
  {
    LooksUp(name, "utf-8", Utf8);
  }

  lemma AliasWindows1251(name: string)
    requires ToLowerAscii(name) == "windows-1251"
    ensures ForName(name) == Some(Windows1251)
  {
    LooksUp(name, "windows-1251", Windows1251);
  }

  lemma AliasKoi8R(name: string)
    requires ToLowerAscii(name) == "koi8-r"
    ensures ForName(name) == Some(Koi8R)
  {
    LooksUp(name, "koi8-r", Koi8R);
  }

  lemma AliasCp866(name: string)
    requires ToLowerAscii(name) == "ibm866"
    ensures ForName(name) == Some(Cp866)
  {
    LooksUp(name, "ibm866", Cp866);
  }

  lemma AliasIso88591(name: string)
    requires ToLowerAscii(name) == "iso-8859-1"
    ensures ForName(name) == Some(Iso88591)
  {
    LooksUp(name, "iso-8859-1", Iso88591);
  }

  /** The lookup of a name whose lower-case form is an alias of `cs` and of no charset tried before it. */
  lemma LooksUp(name: string, key: string, cs: Charset)
    requires ToLowerAscii(name) == key && key in Aliases(cs)
    requires cs != Utf8 ==> key !in Aliases(Utf8)
    requires cs != Utf8 && cs != Windows1251 ==> key !in Aliases(Windows1251)
    requires cs == Cp866 || cs == Iso88591 ==> key !in Aliases(Koi8R)
    requires cs == Iso88591 ==> key !in Aliases(Cp866)
    ensures ForName(name) == Some(cs)
  {
  }

  /** The lookup depends only on the lower-case form of the name. */
  lemma ForNameIgnoresCase(a: string, b: string)
    requires ToLowerAscii(a) == ToLowerAscii(b)
    ensures ForName(a) == ForName(b)
  {
  }

  /** The name the source falls back to, "Windows-1251", names Windows-1251. */
  lemma ForNameOfDefaultName()
    ensures ForName("Windows-1251") == Some(Windows1251)
  {
    assert ToLowerAscii("Wind") == "wind";
    assert ToLowerAscii("ows-") == "ows-";
    assert ToLowerAscii("1251") == "1251";
    assert "Windows-1251" == "Wind" + "ows-" + "1251";
    assert "wind" + "ows-" + "1251" == "windows-1251";
    LowerOfPieces("Wind", "ows-", "1251", "wind", "ows-", "1251");
    AliasWindows1251("Windows-1251");
  }
}
