/**
 * The certificates page and the client-configuration download: the EasyRSA
 * `index.txt` is read line by line, each certificate's common name is taken
 * from its subject, and a client configuration is made by substituting the
 * key and the certificate into a template.
 */
module Certificates {
  import opened Wrappers
  import opened JavaText
  import opened Charsets
  import opened CharsetNames
  import opened Files
  import opened ConfigFileService

  // ---------------------------------------------------------------- the common name

  /** `/CN=` at `i`, followed by at least one character other than `/`: where `/CN=([^/]+)` can match. */
  predicate CnAt(s: string, i: int) {
    0 <= i && i + 5 <= |s| && s[i..i + 4] == "/CN=" && s[i + 4] != '/'
  }

  /** `v` is the whole run of non-`/` characters after the `/CN=` at `i`: the regex's greedy group. */
  predicate IsCnValue(s: string, i: int, v: string) {
    0 <= i && i + 4 + |v| <= |s| && v != [] && '/' !in v && s[i + 4..i + 4 + |v|] == v
    && (i + 4 + |v| == |s| || s[i + 4 + |v|] == '/')
  }

  /** The run of characters other than `/` from `j` on. */
  function NonSlashRun(s: string, j: nat): (r: string)
    requires j <= |s|
    ensures j + |r| <= |s| && '/' !in r && s[j..j + |r|] == r
    ensures j + |r| == |s| || s[j + |r|] == '/'
    decreases |s| - j
  {
    if j == |s| || s[j] == '/' then []
    else [s[j]] + NonSlashRun(s, j + 1)
  }

  /** The greedy group is determined by where the match starts. */
  lemma CnValueIsUnique(s: string, i: int, v1: string, v2: string)
    requires IsCnValue(s, i, v1) && IsCnValue(s, i, v2)
    ensures v1 == v2
  {
    assert forall k :: 0 <= k < |v1| ==> s[i + 4 + k] == v1[k];
    assert forall k :: 0 <= k < |v2| ==> s[i + 4 + k] == v2[k];
  }

  /** Matcher.find from `from` on: the first place the pattern matches, and its group. */
  function FindCn(s: string, from: nat): (r: Option<string>)
    ensures r.None? <==> forall i :: from <= i ==> !CnAt(s, i)
    ensures r.Some? ==> exists i :: (from <= i && CnAt(s, i) && (forall j :: from <= j < i ==> !CnAt(s, j))
      && IsCnValue(s, i, r.value))
    decreases |s| - from
  {
    if from + 5 > |s| then None
    else if CnAt(s, from) then Some(NonSlashRun(s, from + 4))
    else FindCn(s, from + 1)
  }

  /**
   * extractCertificateName: the group of the first match of `/CN=([^/]+)`,
   * or None when the pattern does not occur.
   */
  function ExtractCertificateName(line: string): (r: Option<string>)
    ensures r.None? <==> forall i :: !CnAt(line, i)
    ensures r.Some? ==> exists i :: (CnAt(line, i) && (forall j :: 0 <= j < i ==> !CnAt(line, j))
      && IsCnValue(line, i, r.value))
  {
    FindCn(line, 0)
  }

  /**
   * A subject with no `/CN` before its `/CN=` component gives that component's
   * value, which runs to the next `/` or to the end of the line.
   */
  lemma CnOfSubject(before: string, cn: string, after: string)
    requires !Contains(before, "/CN")
    requires cn != [] && '/' !in cn
    requires after == [] || after[0] == '/'
    ensures ExtractCertificateName(before + "/CN=" + cn + after) == Some(cn)
  {
    var s := before + "/CN=" + cn + after;
    var n := |before|;
    assert s[n..n + 4] == "/CN=";
    assert s[n + 4] == cn[0];
    assert CnAt(s, n);
    assert forall k :: 0 <= k < n ==> s[k] == before[k];
    forall j | 0 <= j < n ensures !CnAt(s, j) {
      var w := s[j..j + 4];
      if j + 3 <= n {
        assert !OccursAt(before, "/CN", j);
        assert before[j..j + 3] == w[..3];
      } else if j + 2 == n {
        assert w[2] == s[n] == '/';
      } else {
        assert w[1] == s[n] == '/';
      }
    }
    var r := ExtractCertificateName(s);
    var i :| CnAt(s, i) && (forall j :: 0 <= j < i ==> !CnAt(s, j)) && IsCnValue(s, i, r.value);
    assert i == n;
    assert s[n + 4..n + 4 + |cn|] == cn;
    if after != [] {
      assert s[n + 4 + |cn|] == after[0];
    }
    assert IsCnValue(s, n, cn);
    CnValueIsUnique(s, n, r.value, cn);
  }

  // ---------------------------------------------------------------- the index and the key files

  /** CertificateInfo: a certificate's common name and whether its `.crt` and `.key` are present. */
  datatype CertificateInfo = CertificateInfo(name: string, hasFiles: bool)

  /** The EasyRSA keys directory. */
  function KeysDir(p: Properties): Path {
    p.easyRsaPath + "/keys"
  }

  /** Paths.get(dir, fileName). */
  function PathIn(dir: Path, fileName: string): Path {
    dir + "/" + fileName
  }

  function IndexPath(p: Properties): Path {
    PathIn(KeysDir(p), "index.txt")
  }

  /** checkCertificateFiles: both `<name>.crt` and `<name>.key` exist in the keys directory. */
  predicate HasFiles(p: Properties, d: Disk, name: string) {
    PathIn(KeysDir(p), name + ".crt") in d.files && PathIn(KeysDir(p), name + ".key") in d.files
  }

  /** An index line that is empty once trimmed, or a comment. */
  predicate IsSkipped(line: string) {
    var t := Trim(line);
    t == [] || StartsWith(t, "#")
  }

  /** What one index line adds to the page: its certificate, if it is not skipped and has a common name. */
  function EntryOf(p: Properties, d: Disk, line: string): seq<CertificateInfo> {
    if IsSkipped(line) then []
    else match ExtractCertificateName(Trim(line))
      case Some(name) => if name != [] then [CertificateInfo(name, HasFiles(p, d, name))] else []
      case None => []
  }

  /** The certificates listed for the index lines, in file order. */
  function Listing(p: Properties, d: Disk, lines: seq<string>): (r: seq<CertificateInfo>)
    ensures |r| <= |lines|
    ensures forall k :: 0 <= k < |r| ==> r[k].name != [] && '/' !in r[k].name
    ensures forall k :: 0 <= k < |r| ==> (r[k].hasFiles <==> HasFiles(p, d, r[k].name))
  {
    if lines == [] then []
    else Listing(p, d, lines[..|lines| - 1]) + EntryOf(p, d, lines[|lines| - 1])
  }

  /** Listing one more line adds that line's entry. */
  lemma ListingStep(p: Properties, d: Disk, lines: seq<string>, i: nat)
    requires i < |lines|
    ensures Listing(p, d, lines[..i + 1]) == Listing(p, d, lines[..i]) + EntryOf(p, d, lines[i])
  {
    assert lines[..i + 1][..i] == lines[..i];
  }

  lemma AllLines(lines: seq<string>)
    ensures lines[..|lines|] == lines
  {
  }

  /** The listing of two runs of lines is the listing of the first followed by that of the second. */
  lemma {:induction false} ListingAppend(p: Properties, d: Disk, a: seq<string>, b: seq<string>)
    ensures Listing(p, d, a + b) == Listing(p, d, a) + Listing(p, d, b)
    decreases |b|
  {
    if b == [] {
      assert a + b == a;
    } else {
      var c := b[..|b| - 1];
      assert (a + b)[..|a + b| - 1] == a + c;
      assert (a + b)[|a + b| - 1] == b[|b| - 1];
      ListingAppend(p, d, a, c);
    }
  }

  /** One line is listed as its entry. */
  lemma ListingOfLine(p: Properties, d: Disk, line: string)
    ensures Listing(p, d, [line]) == EntryOf(p, d, line)
  {
    assert [line][..0] == [];
  }

  /** Blank and comment lines never show on the page, wherever they are. */
  lemma SkippedLineIsNotListed(p: Properties, d: Disk, a: seq<string>, line: string, b: seq<string>)
    requires IsSkipped(line)
    ensures Listing(p, d, a + [line] + b) == Listing(p, d, a + b)
  {
    ListingAppend(p, d, a + [line], b);
    ListingAppend(p, d, a, [line]);
    ListingOfLine(p, d, line);
    ListingAppend(p, d, a, b);
  }

  /** A subject line with a common name is listed as that name, with whether its files exist. */
  lemma SubjectLineIsListed(p: Properties, d: Disk, before: string, cn: string, after: string)
    requires !IsSkipped(before + "/CN=" + cn + after)
    requires Trim(before + "/CN=" + cn + after) == before + "/CN=" + cn + after
    requires !Contains(before, "/CN") && cn != [] && '/' !in cn && (after == [] || after[0] == '/')
    ensures Listing(p, d, [before + "/CN=" + cn + after]) == [CertificateInfo(cn, HasFiles(p, d, cn))]
  {
    CnOfSubject(before, cn, after);
    ListingOfLine(p, d, before + "/CN=" + cn + after);
  }

  /**
   * certificatesPage: an index that is missing or not valid UTF-8 gives an
   * empty page (the IOException is logged); otherwise its lines are listed.
   */
  function CertificatesOnDisk(p: Properties, d: Disk): seq<CertificateInfo> {
    if IndexPath(p) !in d.files then []
    else
      var bytes := d.files[IndexPath(p)];
      if !Utf8WellFormed(bytes) then [] else Listing(p, d, ReaderLines(Decode(Utf8, bytes)))
  }

  /** An index written as newline-terminated UTF-8 lines is listed line by line. */
  lemma IndexIsListedByLine(p: Properties, d: Disk, lines: seq<string>)
    requires forall k :: 0 <= k < |lines| ==> HasNoLineBreak(lines[k])
    requires IndexPath(p) in d.files && d.files[IndexPath(p)] == Utf8Encode(TerminatedText(lines))
    ensures CertificatesOnDisk(p, d) == Listing(p, d, lines)
  {
    Utf8RoundTrip(TerminatedText(lines));
    ReaderLinesOfTerminated(lines);
  }

  // ---------------------------------------------------------------- the client configuration

  /** `{key}` is replaced first, then `{cert}` in the result. */
  function Substitute(template: string, keyContent: string, certContent: string): string {
    Replace(Replace(template, "{key}", keyContent), "{cert}", certContent)
  }

  /** The target alone is replaced by the replacement. */
  lemma ReplaceWhole(target: string, replacement: string)
    requires target != []
    ensures Replace(target, target, replacement) == replacement
  {
    assert OccursAt(target, target, 0);
    assert target[|target|..] == [];
  }

  /**
   * The order matters: a `{cert}` placeholder is replaced by the certificate
   * verbatim, `{key}` inside it included, while a `{cert}` inside the key is
   * replaced by the certificate.
   */
  lemma SubstitutionOrder(keyContent: string, certContent: string)
    ensures Substitute("{cert}", keyContent, certContent) == certContent
    ensures Substitute("{key}", keyContent, certContent) == Replace(keyContent, "{cert}", certContent)
  {
    forall i | 0 <= i <= 1 ensures !OccursAt("{cert}", "{key}", i) {
      assert "{cert}"[i..i + 5][1] == "{cert}"[i + 1] != 'k';
    }
    assert !Contains("{cert}", "{key}");
    ReplaceAbsent("{cert}", "{key}", keyContent);
    ReplaceWhole("{cert}", certContent);
    ReplaceWhole("{key}", keyContent);
  }

  /** A template with neither placeholder is served as it is. */
  lemma TemplateWithoutPlaceholders(template: string, keyContent: string, certContent: string)
    requires !Contains(template, "{key}") && !Contains(template, "{cert}")
    ensures Substitute(template, keyContent, certContent) == template
  {
    ReplaceAbsent(template, "{key}", keyContent);
    ReplaceAbsent(template, "{cert}", certContent);
  }

  /** The two downloads: which template, and what goes after the name in the file name. */
  datatype Download = Download(templateFileName: string, filenameSuffix: string)

  const TunnelDownload: Download := Download("client_template_tun.ovpn", "_tun")
  const RoutesDownload: Download := Download("client_template.ovpn", "")

  /** The name the client configuration is saved under. */
  function Filename(certificateName: string, filenameSuffix: string): string {
    certificateName + filenameSuffix + ".ovpn"
  }

  /** The tunnel and routes configurations of a certificate are saved under different names that both start with it. */
  lemma DownloadFilenames(certificateName: string)
    ensures Filename(certificateName, TunnelDownload.filenameSuffix) == certificateName + "_tun.ovpn"
    ensures Filename(certificateName, RoutesDownload.filenameSuffix) == certificateName + ".ovpn"
    ensures Filename(certificateName, TunnelDownload.filenameSuffix) != Filename(certificateName, RoutesDownload.filenameSuffix)
    ensures StartsWith(Filename(certificateName, TunnelDownload.filenameSuffix), certificateName)
    ensures StartsWith(Filename(certificateName, RoutesDownload.filenameSuffix), certificateName)
  {
    assert certificateName + "" == certificateName;
  }

  /** The HTTP response of a download. */
  datatype Response =
    | NotFound
    | Attachment(contentDisposition: string, body: seq<byte>)

  /**
   * generateAndDownloadConfig: not found when the template, the key or the
   * certificate is missing; otherwise the template read as UTF-8 (malformed
   * bytes become U+FFFD) with the key and certificate substituted, as UTF-8.
   */
  function GenerateConfig(p: Properties, d: Disk, certificateName: string, download: Download): (r: Response)
    ensures r.NotFound? <==> (PathIn(p.openvpnRoot, download.templateFileName) !in d.files
      || !HasFiles(p, d, certificateName))
  {
    var templatePath := PathIn(p.openvpnRoot, download.templateFileName);
    if templatePath !in d.files then NotFound
    else
      var template := Decode(Utf8, d.files[templatePath]);
      var keyFile := PathIn(KeysDir(p), certificateName + ".key");
      var certFile := PathIn(KeysDir(p), certificateName + ".crt");
      if keyFile !in d.files || certFile !in d.files then NotFound
      else
        var keyContent := Decode(Utf8, d.files[keyFile]);
        var certContent := Decode(Utf8, d.files[certFile]);
        var configContent := Substitute(template, keyContent, certContent);
        var filename := Filename(certificateName, download.filenameSuffix);
        Attachment("attachment; filename=\"" + filename + "\"", Utf8Encode(configContent))
  }

  /**
   * When the template and both files were written as UTF-8, the download is
   * the substituted text in UTF-8, under the name and suffix.
   */
  lemma DownloadOfUtf8Files(p: Properties, d: Disk, certificateName: string, download: Download,
                            template: string, keyContent: string, certContent: string)
    requires PathIn(p.openvpnRoot, download.templateFileName) in d.files
    requires d.files[PathIn(p.openvpnRoot, download.templateFileName)] == Utf8Encode(template)
    requires HasFiles(p, d, certificateName)
    requires d.files[PathIn(KeysDir(p), certificateName + ".key")] == Utf8Encode(keyContent)
    requires d.files[PathIn(KeysDir(p), certificateName + ".crt")] == Utf8Encode(certContent)
    ensures GenerateConfig(p, d, certificateName, download)
      == Attachment("attachment; filename=\"" + Filename(certificateName, download.filenameSuffix) + "\"",
                    Utf8Encode(Substitute(template, keyContent, certContent)))
  {
    Utf8RoundTrip(template);
    Utf8RoundTrip(keyContent);
    Utf8RoundTrip(certContent);
  }

  // ---------------------------------------------------------------- the controller

  class CertificateController {
    const props: Properties
    const fs: FileSystem

    constructor (props: Properties, fs: FileSystem)
      ensures this.props == props && this.fs == fs
    {
      this.props := props;
      this.fs := fs;
    }

    /** checkCertificateFiles. */
    method CheckCertificateFiles(certificateName: string) returns (r: bool)
      ensures r == HasFiles(props, fs.State(), certificateName)
    {
      var keysDir := KeysDir(props);
      var crtExists := fs.Exists(PathIn(keysDir, certificateName + ".crt"));
      var keyExists := fs.Exists(PathIn(keysDir, certificateName + ".key"));
      r := crtExists && keyExists;
    }

    /** certificatesPage: the certificates shown, in index order. */
    method CertificatesPage() returns (certificates: seq<CertificateInfo>)
      ensures certificates == CertificatesOnDisk(props, fs.State())
    {
      certificates := [];
      var indexFile := IndexPath(props);
      var present := fs.Exists(indexFile);
      if !present {
        return;
      }
      var bytes := fs.ReadAllBytes(indexFile);
      if !Utf8WellFormed(bytes) {
        return;
      }
      var lines := ReaderLines(Decode(Utf8, bytes));
      var i := 0;
      while i < |lines|
        invariant 0 <= i <= |lines|
        invariant certificates == Listing(props, fs.State(), lines[..i])
      {
        ListingStep(props, fs.State(), lines, i);
        var line := Trim(lines[i]);
        if line == [] || StartsWith(line, "#") {
          assert EntryOf(props, fs.State(), lines[i]) == [];
          i := i + 1;
          continue;
        }
        var certificateName := ExtractCertificateName(line);
        if certificateName.Some? && certificateName.value != [] {
          var hasFiles := CheckCertificateFiles(certificateName.value);
          certificates := certificates + [CertificateInfo(certificateName.value, hasFiles)];
        } else {
          assert EntryOf(props, fs.State(), lines[i]) == [];
        }
        i := i + 1;
      }
      AllLines(lines);
    }

    /** generateAndDownloadConfig. */
    method GenerateAndDownloadConfig(certificateName: string, download: Download) returns (r: Response)
      ensures r == GenerateConfig(props, fs.State(), certificateName, download)
    {
      var templatePath := PathIn(props.openvpnRoot, download.templateFileName);
      var templatePresent := fs.Exists(templatePath);
      if !templatePresent {
        return NotFound;
      }
      var templateBytes := fs.ReadAllBytes(templatePath);
      var template := Decode(Utf8, templateBytes);
      var keysDir := KeysDir(props);
      var keyFile := PathIn(keysDir, certificateName + ".key");
      var certFile := PathIn(keysDir, certificateName + ".crt");
      var keyPresent := fs.Exists(keyFile);
      var certPresent := fs.Exists(certFile);
      if !keyPresent || !certPresent {
        return NotFound;
      }
      var keyBytes := fs.ReadAllBytes(keyFile);
      var certBytes := fs.ReadAllBytes(certFile);
      var configContent := Substitute(template, Decode(Utf8, keyBytes), Decode(Utf8, certBytes));
      var filename := Filename(certificateName, download.filenameSuffix);
      r := Attachment("attachment; filename=\"" + filename + "\"", Utf8Encode(configContent));
    }

    /** downloadTunnelConfig. */
    method DownloadTunnelConfig(certificateName: string) returns (r: Response)
      ensures r == GenerateConfig(props, fs.State(), certificateName, TunnelDownload)
    {
      r := GenerateAndDownloadConfig(certificateName, TunnelDownload);
    }

    /** downloadRoutesConfig. */
    method DownloadRoutesConfig(certificateName: string) returns (r: Response)
      ensures r == GenerateConfig(props, fs.State(), certificateName, RoutesDownload)
    {
      r := GenerateAndDownloadConfig(certificateName, RoutesDownload);
    }
  }
}
