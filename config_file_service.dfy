/**
 * OpenVpnConfigFileService: the configuration file on disk, read whole through
 * the charset detector and the fallback chain, edited as a list of lines, and
 * written whole after a backup copy; plus restore from the backup and reset to
 * the default copy.
 *
 * Each operation is first a function from the disk before to the disk after and
 * the result (an `Effect`); the class's methods are proved to do exactly that.
 */
module ConfigFileService {
  import opened Wrappers
  import opened JavaText
  import opened CharsetNames
  import opened Charsets
  import opened Files
  import opened EncodingDetection
  import opened ConfigDocument

  // ---------------------------------------------------------------- settings and paths

  /** OpenVpnProperties: where the server configuration lives and which charset it is forced to, if any. */
  datatype Properties = Properties(openvpnRoot: string, configFileName: string, configEncoding: Option<string>, easyRsaPath: string)

  const DefaultProperties: Properties := Properties("/etc/openvpn", "server.conf", None, "/etc/openvpn/easy-rsa/2.0")

  /** getConfigPath: `<root>/<name>`. */
  function ConfigPath(p: Properties): Path {
    p.openvpnRoot + "/" + p.configFileName
  }

  /** The backup sibling `<root>/<name>_bak`. */
  function BackupPath(p: Properties): Path {
    ConfigPath(p) + "_bak"
  }

  /** The factory copy `<root>/<name>_default`. */
  function DefaultPath(p: Properties): Path {
    ConfigPath(p) + "_default"
  }

  /** The three files are different files, whatever the settings. */
  lemma PathsDistinct(p: Properties)
    ensures ConfigPath(p) != BackupPath(p)
    ensures ConfigPath(p) != DefaultPath(p)
    ensures BackupPath(p) != DefaultPath(p)
  {
  }

  /** The IOExceptions the service throws. */
  datatype IoError = ConfigNotFound | BackupNotFound | DefaultNotFound | WriteFailed | CopyFailed

  /** The disk after an operation and what the operation returned or threw. */
  datatype Effect<T> = Effect(disk: Disk, result: Result<T, IoError>)

  /** The configuration file's content, if it exists. */
  function ConfigBytes(p: Properties, d: Disk): Option<seq<byte>> {
    if ConfigPath(p) in d.files then Some(d.files[ConfigPath(p)]) else None
  }

  /** detectFileEncoding against this disk. */
  function Detected(p: Properties, fileTool: FileTool, d: Disk): Option<string> {
    DetectEncoding(ConfigBytes(p, d), p.configEncoding, fileTool)
  }

  /** `Charset.forName(name)`, with Windows-1251 when there is no name or the name is not supported. */
  function CharsetOrDefault(name: Option<string>): (r: Charset)
    ensures name.Some? && ForName(name.value).Some? ==> r == ForName(name.value).value
    ensures name.None? || ForName(name.value).None? ==> r == Windows1251
  {
    if name.Some? && ForName(name.value).Some? then ForName(name.value).value else Windows1251
  }

  // ---------------------------------------------------------------- reading

  /** The charsets tried, in order, when the detected one leaves a U+FFFD. */
  const FallbackCharsets: seq<Charset> := [Utf8, Windows1251, Koi8R, Cp866, Iso88591]

  /** The decode has no replacement character. */
  predicate IsClean(cs: Charset, b: seq<byte>) {
    Replacement !in Decode(cs, b)
  }

  /** A charset other than `tried` whose decode of `b` is clean. */
  function CleanOtherThan(tried: Charset, b: seq<byte>): Charset -> bool {
    cs => cs != tried && IsClean(cs, b)
  }

  /** Index of the first of `cands` at or after `from` that `accepts` holds of, or the number of candidates. */
  function FirstAccepted(cands: seq<Charset>, accepts: Charset -> bool, from: nat): (r: nat)
    requires from <= |cands|
    ensures from <= r <= |cands|
    ensures forall k :: from <= k < r ==> !accepts(cands[k])
    ensures r < |cands| ==> accepts(cands[r])
    decreases |cands| - from
  {
    if from == |cands| || accepts(cands[from]) then from
    else FirstAccepted(cands, accepts, from + 1)
  }

  /**
   * The first of `cands`, other than the one already tried, whose decode is
   * clean: every candidate before it, other than the one tried, leaves a U+FFFD.
   */
  function FirstClean(cands: seq<Charset>, tried: Charset, b: seq<byte>): (r: Option<Charset>)
    ensures r.Some? ==> r.value != tried && IsClean(r.value, b) && r.value in cands
    ensures r.None? <==> forall k :: 0 <= k < |cands| && cands[k] != tried ==> !IsClean(cands[k], b)
    ensures r.Some? ==>
      exists j :: 0 <= j < |cands| && cands[j] == r.value && forall k :: 0 <= k < j && cands[k] != tried ==> !IsClean(cands[k], b)
  {
    var i := FirstAccepted(cands, CleanOtherThan(tried, b), 0);
    if i < |cands| then Some(cands[i]) else None
  }

  /** The charset readConfigFile ends up decoding with: the first one if clean, else the first clean fallback, else Windows-1251. */
  function ReadCharset(first: Charset, b: seq<byte>): Charset {
    if IsClean(first, b) then first
    else match FirstClean(FallbackCharsets, first, b)
      case Some(cs) => cs
      case None => Windows1251
  }

  /**
   * The chain returns the first clean decode: the first charset's if it is
   * clean, else that of the first fallback, other than the first charset, that
   * is clean. ISO-8859-1 decodes every byte, so the chain never gets to its
   * last resort and the decode used never holds a U+FFFD.
   */
  lemma ReadCharsetIsFirstClean(first: Charset, b: seq<byte>)
    ensures IsClean(ReadCharset(first, b), b)
    ensures IsClean(first, b) ==> ReadCharset(first, b) == first
    ensures !IsClean(first, b) ==> FirstClean(FallbackCharsets, first, b).Some?
    ensures !IsClean(first, b) ==> ReadCharset(first, b) != first
    ensures var r := ReadCharset(first, b);
      !IsClean(first, b) ==>
        exists j :: 0 <= j < |FallbackCharsets| && FallbackCharsets[j] == r && forall k :: 0 <= k < j && FallbackCharsets[k] != first ==> !IsClean(FallbackCharsets[k], b)
  {
    Iso88591NeverReplaces(b);
    if !IsClean(first, b) {
      assert FallbackCharsets[4] == Iso88591 && Iso88591 != first;
    }
  }

  /** readConfigFile. */
  function ReadConfig(p: Properties, fileTool: FileTool, d: Disk): (r: Result<seq<string>, IoError>)
    ensures r.Err? ==> r.error == ConfigNotFound
  {
    match ConfigBytes(p, d)
    case None => Err(ConfigNotFound)
    case Some(b) =>
      var first := CharsetOrDefault(Detected(p, fileTool, d));
      Ok(SplitLines(Decode(ReadCharset(first, b), b)))
  }

  // ---------------------------------------------------------------- writing

  /** The charset writeConfigFile encodes with: the override's, else the detected one's, else Windows-1251. */
  function WriteCharset(p: Properties, fileTool: FileTool, d: Disk): Charset {
    match ExplicitEncoding(p.configEncoding)
    case Some(name) => CharsetOrDefault(Some(name))
    case None => CharsetOrDefault(Detected(p, fileTool, d))
  }

  /** The copy to `_bak` taken before a write or a reset, when the configuration exists; its failure is ignored. */
  function BackUp(p: Properties, d: Disk): Disk {
    if ConfigPath(p) in d.files then CopyFile(d, ConfigPath(p), BackupPath(p)).disk else d
  }

  /** The bytes of the sanitised lines in the write charset. */
  function PrimaryBytes(cs: Charset, lines: seq<string>): seq<byte> {
    SafeTextEncodable(cs, lines);
    Encode(cs, LinesText(SafeLines(cs, lines)))
  }

  /** The bytes of the original lines in UTF-8, written when the first write fails. */
  function RetryBytes(lines: seq<string>): seq<byte> {
    Utf8Encode(LinesText(lines))
  }

  /** writeConfigFile. */
  function WriteConfig(p: Properties, fileTool: FileTool, d: Disk, lines: seq<string>): Effect<()> {
    var d1 := BackUp(p, d);
    var cs := WriteCharset(p, fileTool, d1);
    var o := Store(d1, ConfigPath(p), PrimaryBytes(cs, lines));
    if o.ok then Effect(o.disk, Ok(()))
    else
      var o2 := Store(o.disk, ConfigPath(p), RetryBytes(lines));
      Effect(o2.disk, if o2.ok then Ok(()) else Err(WriteFailed))
  }

  // ---------------------------------------------------------------- editing

  /** An edit that read the file and may write it: the read's error, or the write's. */
  function Rewrite<T>(p: Properties, fileTool: FileTool, d: Disk, lines: seq<string>, value: T): Effect<T> {
    var w := WriteConfig(p, fileTool, d, lines);
    Effect(w.disk, if w.result.Ok? then Ok(value) else Err(w.result.error))
  }

  /** replaceLineByPrefix. */
  function ReplaceLineEffect(p: Properties, fileTool: FileTool, d: Disk, prefix: string, newValue: string): Effect<bool> {
    match ReadConfig(p, fileTool, d)
    case Err(e) => Effect(d, Err(e))
    case Ok(lines) =>
      match ReplaceFirst(lines, prefix, newValue)
      case None => Effect(d, Ok(false))
      case Some(edited) => Rewrite(p, fileTool, d, edited, true)
  }

  /** appendLine. */
  function AppendLineEffect(p: Properties, fileTool: FileTool, d: Disk, line: string): Effect<()> {
    match ReadConfig(p, fileTool, d)
    case Err(e) => Effect(d, Err(e))
    case Ok(lines) => Rewrite(p, fileTool, d, lines + [line], ())
  }

  /** removeLineByPrefix. */
  function RemoveLineEffect(p: Properties, fileTool: FileTool, d: Disk, prefix: string): Effect<bool> {
    match ReadConfig(p, fileTool, d)
    case Err(e) => Effect(d, Err(e))
    case Ok(lines) =>
      var kept := RemoveMatching(lines, prefix);
      if |kept| == |lines| then Effect(d, Ok(false))
      else Rewrite(p, fileTool, d, kept, true)
  }

  /** getConfigValue. */
  function ConfigValueOnDisk(p: Properties, fileTool: FileTool, d: Disk, key: string): Result<Option<string>, IoError> {
    match ReadConfig(p, fileTool, d)
    case Err(e) => Err(e)
    case Ok(lines) => Ok(ConfigValue(lines, key))
  }

  /** findLineContaining. */
  function FindLineOnDisk(p: Properties, fileTool: FileTool, d: Disk, text: string): Result<Option<string>, IoError> {
    match ReadConfig(p, fileTool, d)
    case Err(e) => Err(e)
    case Ok(lines) => Ok(FindContaining(lines, text))
  }

  // ---------------------------------------------------------------- backup and default

  /** restoreFromBackup. */
  function Restore(p: Properties, d: Disk): Effect<()> {
    if BackupPath(p) !in d.files then Effect(d, Err(BackupNotFound))
    else
      var o := CopyFile(d, BackupPath(p), ConfigPath(p));
      Effect(o.disk, if o.ok then Ok(()) else Err(CopyFailed))
  }

  /** resetToDefault. */
  function Reset(p: Properties, d: Disk): Effect<()> {
    if DefaultPath(p) !in d.files then Effect(d, Err(DefaultNotFound))
    else
      var d1 := BackUp(p, d);
      var o := CopyFile(d1, DefaultPath(p), ConfigPath(p));
      Effect(o.disk, if o.ok then Ok(()) else Err(CopyFailed))
  }

  // ---------------------------------------------------------------- the service

  class ConfigFileService {
    const props: Properties
    const fs: FileSystem
    const fileTool: FileTool

    constructor (props: Properties, fs: FileSystem, fileTool: FileTool)
      ensures this.props == props && this.fs == fs && this.fileTool == fileTool
    {
      this.props := props;
      this.fs := fs;
      this.fileTool := fileTool;
    }

    /** configFileExists. */
    method ConfigFileExists() returns (r: bool)
      ensures r <==> ConfigPath(props) in fs.State().files
    {
      r := fs.Exists(ConfigPath(props));
    }

    /** backupExists. */
    method BackupExists() returns (r: bool)
      ensures r <==> BackupPath(props) in fs.State().files
    {
      r := fs.Exists(BackupPath(props));
    }

    /** defaultFileExists. */
    method DefaultFileExists() returns (r: bool)
      ensures r <==> DefaultPath(props) in fs.State().files
    {
      r := fs.Exists(DefaultPath(props));
    }

    /** detectFileEncoding. */
    method DetectFileEncoding() returns (r: Option<string>)
      ensures r == Detected(props, fileTool, fs.State())
    {
      var configPath := ConfigPath(props);
      var present := fs.Exists(configPath);
      if !present {
        return None;
      }
      var explicit := ExplicitEncoding(props.configEncoding);
      if explicit.Some? {
        return explicit;
      }
      var fileBytes := fs.ReadAllBytes(configPath);
      if IsValidUtf8(fileBytes) {
        return Some("UTF-8");
      }
      var bestMatch, bestScore := BestLegacyMatch(LegacyCandidates, fileBytes);
      if bestMatch.Some? {
        return Some(Name(bestMatch.value));
      }
      var fromTool := CharsetFromFileOutput(fileTool(fileBytes));
      if fromTool.Some? {
        return fromTool;
      }
      return Some(DefaultEncodingName);
    }

    /** readConfigFile. */
    method ReadConfigFile() returns (r: Result<seq<string>, IoError>)
      ensures r == ReadConfig(props, fileTool, fs.State())
    {
      var configPath := ConfigPath(props);
      var present := fs.Exists(configPath);
      if !present {
        return Err(ConfigNotFound);
      }
      var detectedEncoding := DetectFileEncoding();
      var charset := CharsetOrDefault(detectedEncoding);
      var fileBytes := fs.ReadAllBytes(configPath);
      var content := Decode(charset, fileBytes);
      if Replacement !in content {
        return Ok(SplitLines(content));
      }
      var i := 0;
      while i < |FallbackCharsets|
        invariant 0 <= i <= |FallbackCharsets|
        invariant FirstAccepted(FallbackCharsets, CleanOtherThan(charset, fileBytes), 0)
          == FirstAccepted(FallbackCharsets, CleanOtherThan(charset, fileBytes), i)
      {
        var fallbackCharset := FallbackCharsets[i];
        if fallbackCharset != charset {
          content := Decode(fallbackCharset, fileBytes);
          if Replacement !in content {
            return Ok(SplitLines(content));
          }
        }
        i := i + 1;
      }
      return Ok(SplitLines(Decode(Windows1251, fileBytes)));
    }

    /** writeConfigFile. */
    method WriteConfigFile(lines: seq<string>) returns (r: Result<(), IoError>)
      modifies fs
      ensures Effect(fs.State(), r) == WriteConfig(props, fileTool, old(fs.State()), lines)
    {
      var configPath := ConfigPath(props);
      var present := fs.Exists(configPath);
      if present {
        var _ := fs.Copy(configPath, BackupPath(props));
      }
      assert fs.State() == BackUp(props, old(fs.State()));
      var writeCharset: Charset;
      var explicit := ExplicitEncoding(props.configEncoding);
      if explicit.Some? {
        writeCharset := CharsetOrDefault(explicit);
      } else {
        var detectedEncoding := DetectFileEncoding();
        writeCharset := CharsetOrDefault(detectedEncoding);
      }
      var safeLines: seq<string> := [];
      for i := 0 to |lines|
        invariant |safeLines| == i
        invariant forall k :: 0 <= k < i ==> safeLines[k] == SafeLine(writeCharset, lines[k])
      {
        if CanEncode(writeCharset, lines[i]) {
          safeLines := safeLines + [lines[i]];
        } else {
          safeLines := safeLines + [MaskNonAscii(lines[i])];
        }
      }
      assert safeLines == SafeLines(writeCharset, lines);
      SafeTextEncodable(writeCharset, lines);
      var ok := fs.Write(configPath, Encode(writeCharset, LinesText(safeLines)));
      if !ok {
        var retried := fs.Write(configPath, Utf8Encode(LinesText(lines)));
        if !retried {
          return Err(WriteFailed);
        }
      }
      return Ok(());
    }

    /** replaceLineByPrefix. */
    method ReplaceLineByPrefix(prefix: string, newValue: string) returns (r: Result<bool, IoError>)
      modifies fs
      ensures Effect(fs.State(), r) == ReplaceLineEffect(props, fileTool, old(fs.State()), prefix, newValue)
    {
      var read := ReadConfigFile();
      if read.Err? {
        return Err(read.error);
      }
      var lines, replaced := ReplaceFirstInPlace(read.value, prefix, newValue);
      if replaced {
        var written := WriteConfigFile(lines);
        if written.Err? {
          return Err(written.error);
        }
      }
      return Ok(replaced);
    }

    /** appendLine. */
    method AppendLine(line: string) returns (r: Result<(), IoError>)
      modifies fs
      ensures Effect(fs.State(), r) == AppendLineEffect(props, fileTool, old(fs.State()), line)
    {
      var read := ReadConfigFile();
      if read.Err? {
        return Err(read.error);
      }
      var lines := read.value + [line];
      r := WriteConfigFile(lines);
    }

    /** removeLineByPrefix: `removeIf` keeps the lines that do not match, in order. */
    method RemoveLineByPrefix(prefix: string) returns (r: Result<bool, IoError>)
      modifies fs
      ensures Effect(fs.State(), r) == RemoveLineEffect(props, fileTool, old(fs.State()), prefix)
    {
      var read := ReadConfigFile();
      if read.Err? {
        return Err(read.error);
      }
      var lines := read.value;
      var kept := RemoveIf(lines, prefix);
      var removed := |kept| != |lines|;
      if removed {
        var written := WriteConfigFile(kept);
        if written.Err? {
          return Err(written.error);
        }
      }
      return Ok(removed);
    }

    /** getConfigValue. */
    method GetConfigValue(key: string) returns (r: Result<Option<string>, IoError>)
      ensures r == ConfigValueOnDisk(props, fileTool, fs.State(), key)
    {
      var read := ReadConfigFile();
      if read.Err? {
        return Err(read.error);
      }
      var value := ValueInLines(read.value, key);
      return Ok(value);
    }

    /** findLineContaining. */
    method FindLineContaining(searchText: string) returns (r: Result<Option<string>, IoError>)
      ensures r == FindLineOnDisk(props, fileTool, fs.State(), searchText)
    {
      var read := ReadConfigFile();
      if read.Err? {
        return Err(read.error);
      }
      var line := FirstContaining(read.value, searchText);
      return Ok(line);
    }

    /** restoreFromBackup. */
    method RestoreFromBackup() returns (r: Result<(), IoError>)
      modifies fs
      ensures Effect(fs.State(), r) == Restore(props, old(fs.State()))
    {
      var backupPath := BackupPath(props);
      var present := fs.Exists(backupPath);
      if !present {
        return Err(BackupNotFound);
      }
      var ok := fs.Copy(backupPath, ConfigPath(props));
      if !ok {
        return Err(CopyFailed);
      }
      return Ok(());
    }

    /** resetToDefault. */
    method ResetToDefault() returns (r: Result<(), IoError>)
      modifies fs
      ensures Effect(fs.State(), r) == Reset(props, old(fs.State()))
    {
      var defaultPath := DefaultPath(props);
      var present := fs.Exists(defaultPath);
      if !present {
        return Err(DefaultNotFound);
      }
      var configPath := ConfigPath(props);
      var configPresent := fs.Exists(configPath);
      if configPresent {
        var _ := fs.Copy(configPath, BackupPath(props));
      }
      var ok := fs.Copy(defaultPath, configPath);
      if !ok {
        return Err(CopyFailed);
      }
      return Ok(());
    }
  }
}
