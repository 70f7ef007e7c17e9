/**
 * What the configuration engine guarantees across operations: reading fails
 * only for a missing file, a write keeps a backup and fails only when both of
 * its writes fail, restore and reset move whole files, and text written by the
 * engine is read back as the lines that were written.
 */
module ConfigLifecycle {
  import opened Wrappers
  import opened JavaText
  import opened CharsetNames
  import opened Charsets
  import opened Files
  import opened EncodingDetection
  import opened ConfigDocument
  import opened ConfigFileService

  // ---------------------------------------------------------------- reading

  /** readConfigFile throws exactly when the file is missing. */
  lemma ReadFailsOnlyWhenMissing(p: Properties, fileTool: FileTool, d: Disk)
    ensures ReadConfig(p, fileTool, d).Err? <==> ConfigPath(p) !in d.files
  {
  }

  /** No line the engine reads holds a U+FFFD. */
  lemma ReadLinesAreClean(p: Properties, fileTool: FileTool, d: Disk)
    requires ReadConfig(p, fileTool, d).Ok?
    ensures forall k :: 0 <= k < |ReadConfig(p, fileTool, d).value| ==> Replacement !in ReadConfig(p, fileTool, d).value[k]
  {
    var b := d.files[ConfigPath(p)];
    var first := CharsetOrDefault(Detected(p, fileTool, d));
    ReadCharsetIsFirstClean(first, b);
    SplitLinesAvoid(Decode(ReadCharset(first, b), b), Replacement);
  }

  // ---------------------------------------------------------------- writing

  /** The backup copy does not touch the configuration itself. */
  lemma BackUpKeepsConfig(p: Properties, d: Disk)
    ensures ConfigBytes(p, BackUp(p, d)) == ConfigBytes(p, d)
    ensures DefaultPath(p) in BackUp(p, d).files <==> DefaultPath(p) in d.files
    ensures DefaultPath(p) in d.files ==> BackUp(p, d).files[DefaultPath(p)] == d.files[DefaultPath(p)]
  {
    PathsDistinct(p);
  }

  /** When the configuration exists and the copy succeeds, the backup afterwards holds the bytes from before the write. */
  lemma WriteBacksUpOldConfig(p: Properties, fileTool: FileTool, d: Disk, lines: seq<string>)
    requires ConfigPath(p) in d.files && !NextFails(d)
    ensures var after := WriteConfig(p, fileTool, d, lines).disk;
      BackupPath(p) in after.files && after.files[BackupPath(p)] == d.files[ConfigPath(p)]
  {
    PathsDistinct(p);
    var d1 := BackUp(p, d);
    var o := Store(d1, ConfigPath(p), PrimaryBytes(WriteCharset(p, fileTool, d1), lines));
    OtherPathsUnchanged(d1, ConfigPath(p), PrimaryBytes(WriteCharset(p, fileTool, d1), lines), BackupPath(p));
    if !o.ok {
      OtherPathsUnchanged(o.disk, ConfigPath(p), RetryBytes(lines), BackupPath(p));
    }
  }

  /**
   * A write throws exactly when both the write in the chosen charset and the
   * UTF-8 retry fail: the two entries of the fault script after the one the
   * backup copy consumes (if the file exists).
   */
  lemma WriteFailsOnlyIfBothWritesFail(p: Properties, fileTool: FileTool, d: Disk, lines: seq<string>)
    ensures var k := if ConfigPath(p) in d.files then 1 else 0;
      WriteConfig(p, fileTool, d, lines).result.Err? <==> k + 1 < |d.faults| && d.faults[k].Fail? && d.faults[k + 1].Fail?
  {
    var d1 := BackUp(p, d);
    var k := if ConfigPath(p) in d.files then 1 else 0;
    if k == 1 && d.faults != [] {
      assert d1.faults == d.faults[1..];
    } else if k == 0 {
      assert d1 == d;
    }
  }

  /**
   * A write that throws may have truncated the configuration: afterwards it is
   * gone, holds its old bytes, or holds a prefix of one of the two encodings
   * that were being written. Nothing but the configuration and its backup has
   * changed.
   */
  lemma FailedWriteLeavesPartialConfig(p: Properties, fileTool: FileTool, d: Disk, lines: seq<string>)
    requires WriteConfig(p, fileTool, d, lines).result.Err?
    ensures var c := ConfigBytes(p, WriteConfig(p, fileTool, d, lines).disk);
      var cs := WriteCharset(p, fileTool, BackUp(p, d));
      c == None || c == ConfigBytes(p, d) || c.value <= PrimaryBytes(cs, lines) || c.value <= RetryBytes(lines)
    ensures WriteConfig(p, fileTool, d, lines).disk.files - {ConfigPath(p), BackupPath(p)}
      == d.files - {ConfigPath(p), BackupPath(p)}
  {
    BackUpKeepsConfig(p, d);
    var d1 := BackUp(p, d);
    var o := Store(d1, ConfigPath(p), PrimaryBytes(WriteCharset(p, fileTool, d1), lines));
    var o2 := Store(o.disk, ConfigPath(p), RetryBytes(lines));
    assert d1.files - {BackupPath(p)} == d.files - {BackupPath(p)};
    SameOutsideTwo(d.files, d1.files, BackupPath(p), ConfigPath(p));
    SameOutsideTwo(d1.files, o.disk.files, ConfigPath(p), BackupPath(p));
    SameOutsideTwo(o.disk.files, o2.disk.files, ConfigPath(p), BackupPath(p));
    assert {ConfigPath(p), BackupPath(p)} == {BackupPath(p), ConfigPath(p)};
  }

  /** Two maps that agree outside one key agree outside that key and any other. */
  lemma SameOutsideTwo<K, V>(m: map<K, V>, n: map<K, V>, a: K, b: K)
    requires m - {a} == n - {a}
    ensures m - {a, b} == n - {a, b}
  {
    forall k | k in m - {a, b} ensures k in n - {a, b} && m[k] == n[k] {
      assert k in m - {a};
    }
    forall k | k in n - {a, b} ensures k in m - {a, b} {
      assert k in n - {a};
    }
  }

  /** A write that succeeds leaves the configuration holding either the sanitised lines in the chosen charset or the original lines in UTF-8. */
  lemma WrittenBytes(p: Properties, fileTool: FileTool, d: Disk, lines: seq<string>)
    requires WriteConfig(p, fileTool, d, lines).result.Ok?
    ensures var after := WriteConfig(p, fileTool, d, lines).disk;
      var cs := WriteCharset(p, fileTool, BackUp(p, d));
      ConfigBytes(p, after) == Some(PrimaryBytes(cs, lines)) || ConfigBytes(p, after) == Some(RetryBytes(lines))
  {
  }

  /** A write never touches the default copy. */
  lemma WriteKeepsDefault(p: Properties, fileTool: FileTool, d: Disk, lines: seq<string>)
    ensures var after := WriteConfig(p, fileTool, d, lines).disk;
      (DefaultPath(p) in after.files <==> DefaultPath(p) in d.files)
      && (DefaultPath(p) in d.files ==> after.files[DefaultPath(p)] == d.files[DefaultPath(p)])
  {
    BackUpKeepsConfig(p, d);
    PathsDistinct(p);
    var d1 := BackUp(p, d);
    var o := Store(d1, ConfigPath(p), PrimaryBytes(WriteCharset(p, fileTool, d1), lines));
    OtherPathsUnchanged(d1, ConfigPath(p), PrimaryBytes(WriteCharset(p, fileTool, d1), lines), DefaultPath(p));
    if !o.ok {
      OtherPathsUnchanged(o.disk, ConfigPath(p), RetryBytes(lines), DefaultPath(p));
    }
  }

  // ---------------------------------------------------------------- restore and reset

  /** Without a backup, restoreFromBackup throws and changes nothing. */
  lemma RestoreWithoutBackup(p: Properties, d: Disk)
    requires BackupPath(p) !in d.files
    ensures Restore(p, d) == Effect(d, Err(BackupNotFound))
  {
  }

  /** With a backup and a successful copy, the configuration becomes the backup's bytes and the backup stays as it was. */
  lemma RestoreCopiesBackup(p: Properties, d: Disk)
    requires BackupPath(p) in d.files && !NextFails(d)
    ensures var e := Restore(p, d);
      e.result.Ok? && e.disk.files[ConfigPath(p)] == d.files[BackupPath(p)]
      && e.disk.files[BackupPath(p)] == d.files[BackupPath(p)]
  {
    PathsDistinct(p);
  }

  /** Restoring right after a write gives back the configuration from before the write, if both copies succeed. */
  lemma RestoreUndoesWrite(p: Properties, fileTool: FileTool, d: Disk, lines: seq<string>)
    requires ConfigPath(p) in d.files && !NextFails(d)
    requires !NextFails(WriteConfig(p, fileTool, d, lines).disk)
    ensures var e := Restore(p, WriteConfig(p, fileTool, d, lines).disk);
      e.result.Ok? && e.disk.files[ConfigPath(p)] == d.files[ConfigPath(p)]
  {
    WriteBacksUpOldConfig(p, fileTool, d, lines);
    RestoreCopiesBackup(p, WriteConfig(p, fileTool, d, lines).disk);
  }

  /** Without a default copy, resetToDefault throws before taking any backup. */
  lemma ResetWithoutDefault(p: Properties, d: Disk)
    requires DefaultPath(p) !in d.files
    ensures Reset(p, d) == Effect(d, Err(DefaultNotFound))
  {
  }

  /**
   * With a default copy, reset makes the configuration the default's bytes
   * when its copy succeeds, backs up an existing configuration first when that
   * copy succeeds, and never changes the default.
   */
  lemma ResetCopiesDefault(p: Properties, d: Disk)
    requires DefaultPath(p) in d.files
    ensures var e := Reset(p, d);
      DefaultPath(p) in e.disk.files && e.disk.files[DefaultPath(p)] == d.files[DefaultPath(p)]
      && (e.result.Ok? ==> e.disk.files[ConfigPath(p)] == d.files[DefaultPath(p)])
      && (ConfigPath(p) in d.files && !NextFails(d) ==> e.disk.files[BackupPath(p)] == d.files[ConfigPath(p)])
  {
    PathsDistinct(p);
  }

  // ---------------------------------------------------------------- reading back what was written

  /** ASCII lines that can be read back as themselves. */
  predicate PlainAscii(lines: seq<string>) {
    forall k :: 0 <= k < |lines| ==> IsAscii(lines[k]) && IsPlainLine(lines[k])
  }

  /** ASCII text contains no U+FFFD. */
  lemma AsciiHasNoReplacement(s: string)
    requires IsAscii(s)
    ensures Replacement !in s
  {
  }

  /** A charset keeps an ASCII line as it is. */
  lemma SafeLinesOfAscii(cs: Charset, lines: seq<string>)
    requires forall k :: 0 <= k < |lines| ==> IsAscii(lines[k])
    ensures SafeLines(cs, lines) == lines
  {
    forall k | 0 <= k < |lines| ensures SafeLine(cs, lines[k]) == lines[k] {
      AsciiEncodesIdentically(cs, lines[k]);
    }
  }

  /** Configuration bytes that are ASCII text read as that text split into lines, whatever charset is chosen. */
  lemma ReadOfAsciiText(p: Properties, fileTool: FileTool, d: Disk, t: string)
    requires IsAscii(t) && ConfigBytes(p, d) == Some(AsciiBytes(t))
    ensures ReadConfig(p, fileTool, d) == Ok(SplitLines(t))
  {
    var first := CharsetOrDefault(Detected(p, fileTool, d));
    DecodeAscii(first, t);
    AsciiHasNoReplacement(t);
  }

  /**
   * Plain ASCII lines, once written, are read back as those lines (apart from
   * trailing empty ones), whichever of the two writes succeeded.
   */
  lemma WriteThenReadAscii(p: Properties, fileTool: FileTool, d: Disk, lines: seq<string>)
    requires PlainAscii(lines)
    requires WriteConfig(p, fileTool, d, lines).result.Ok?
    ensures ReadConfig(p, fileTool, WriteConfig(p, fileTool, d, lines).disk) == Ok(ReadBack(lines))
  {
    var t := LinesText(lines);
    LinesTextAscii(lines);
    var cs := WriteCharset(p, fileTool, BackUp(p, d));
    SafeLinesOfAscii(cs, lines);
    AsciiEncodesIdentically(cs, t);
    AsciiEncodesIdentically(Utf8, t);
    assert PrimaryBytes(cs, lines) == AsciiBytes(t);
    assert RetryBytes(lines) == AsciiBytes(t);
    WrittenBytes(p, fileTool, d, lines);
    ReadOfAsciiText(p, fileTool, WriteConfig(p, fileTool, d, lines).disk, t);
    SplitLinesOfText(lines);
  }

  /**
   * Without an override, a configuration that is valid UTF-8 is rewritten in
   * UTF-8, so any lines free of U+FFFD are read back as written (apart from
   * trailing empty ones), non-ASCII text included.
   */
  lemma WriteThenReadUtf8(p: Properties, fileTool: FileTool, d: Disk, lines: seq<string>)
    requires ExplicitEncoding(p.configEncoding).None?
    requires ConfigBytes(p, d).Some? && IsValidUtf8(ConfigBytes(p, d).value)
    requires forall k :: 0 <= k < |lines| ==> IsPlainLine(lines[k]) && Replacement !in lines[k]
    requires WriteConfig(p, fileTool, d, lines).result.Ok?
    ensures WriteCharset(p, fileTool, BackUp(p, d)) == Utf8
    ensures ReadConfig(p, fileTool, WriteConfig(p, fileTool, d, lines).disk) == Ok(ReadBack(lines))
  {
    var t := LinesText(lines);
    var d1 := BackUp(p, d);
    BackUpKeepsConfig(p, d);
    NamesUtf8();
    assert WriteCharset(p, fileTool, d1) == Utf8;
    assert SafeLines(Utf8, lines) == lines;
    assert PrimaryBytes(Utf8, lines) == Utf8Encode(t);
    var after := WriteConfig(p, fileTool, d, lines).disk;
    WrittenBytes(p, fileTool, d, lines);
    assert ConfigBytes(p, after) == Some(Utf8Encode(t));
    LinesTextAvoids(lines, Replacement);
    EncodedTextIsValidUtf8(t);
    Utf8RoundTrip(t);
    assert Detected(p, fileTool, after) == Some("UTF-8");
    SplitLinesOfText(lines);
  }

  /**
   * With an override naming a supported charset that can encode every line,
   * lines free of U+FFFD written by the first write are read back as written
   * (apart from trailing empty ones).
   */
  lemma WriteThenReadOverride(p: Properties, fileTool: FileTool, d: Disk, lines: seq<string>, cs: Charset)
    requires ExplicitEncoding(p.configEncoding).Some? && ForName(ExplicitEncoding(p.configEncoding).value) == Some(cs)
    requires forall k :: 0 <= k < |lines| ==> IsPlainLine(lines[k]) && Replacement !in lines[k] && CanEncode(cs, lines[k])
    requires !NextFails(BackUp(p, d))
    ensures ReadConfig(p, fileTool, WriteConfig(p, fileTool, d, lines).disk) == Ok(ReadBack(lines))
  {
    var t := LinesText(lines);
    var d1 := BackUp(p, d);
    assert WriteCharset(p, fileTool, d1) == cs;
    forall k | 0 <= k < |lines| ensures SafeLine(cs, lines[k]) == lines[k] {
    }
    assert SafeLines(cs, lines) == lines;
    LinesTextEncodable(cs, lines);
    DecodeEncode(cs, t);
    LinesTextAvoids(lines, Replacement);
    var after := WriteConfig(p, fileTool, d, lines).disk;
    assert ConfigBytes(p, after) == Some(Encode(cs, t));
    assert Detected(p, fileTool, after) == ExplicitEncoding(p.configEncoding);
    SplitLinesOfText(lines);
  }

  // ---------------------------------------------------------------- the editor on disk

  /**
   * replaceLineByPrefix answers true exactly when the file reads and some line
   * matches; it writes only then, and otherwise leaves the disk as it was.
   */
  lemma ReplaceWritesOnlyOnMatch(p: Properties, fileTool: FileTool, d: Disk, prefix: string, newValue: string)
    ensures var e := ReplaceLineEffect(p, fileTool, d, prefix, newValue);
      var read := ReadConfig(p, fileTool, d);
      (e.result == Ok(false) <==> read.Ok? && forall k :: 0 <= k < |read.value| ==> !MatchesPrefix(read.value[k], prefix))
      && (e.result == Ok(true) ==> read.Ok? && exists k :: 0 <= k < |read.value| && MatchesPrefix(read.value[k], prefix))
      && (e.result == Ok(false) || read.Err? ==> e.disk == d)
  {
    var read := ReadConfig(p, fileTool, d);
    if read.Ok? {
      ReplaceFirstChangesOnlyFirstMatch(read.value, prefix, newValue);
    }
  }

  /**
   * Replacing in plain ASCII lines, when the write succeeds, leaves a file
   * that reads as the old lines with only the first matching one changed.
   */
  lemma ReplaceThenRead(p: Properties, fileTool: FileTool, d: Disk, prefix: string, newValue: string)
    requires ReadConfig(p, fileTool, d).Ok? && PlainAscii(ReadConfig(p, fileTool, d).value)
    requires IsAscii(newValue) && IsPlainLine(newValue)
    requires ReplaceLineEffect(p, fileTool, d, prefix, newValue).result == Ok(true)
    ensures var lines := ReadConfig(p, fileTool, d).value;
      var after := ReplaceLineEffect(p, fileTool, d, prefix, newValue).disk;
      ReadConfig(p, fileTool, after).Ok?
      && (exists i :: 0 <= i < |lines| && MatchesPrefix(lines[i], prefix)
            && (forall k :: 0 <= k < i ==> !MatchesPrefix(lines[k], prefix))
            && ReadBack(lines[i := newValue]) == ReadConfig(p, fileTool, after).value)
  {
    var lines := ReadConfig(p, fileTool, d).value;
    var i := FirstMatch(lines, prefix).value;
    var edited := lines[i := newValue];
    assert ReplaceFirst(lines, prefix, newValue) == Some(edited);
    PlainAsciiOfUpdate(lines, i, newValue);
    WriteThenReadAscii(p, fileTool, d, edited);
  }

  /** Plain ASCII lines followed by a plain ASCII line are plain ASCII. */
  lemma PlainAsciiOfAppend(lines: seq<string>, line: string)
    requires PlainAscii(lines) && IsAscii(line) && IsPlainLine(line)
    ensures PlainAscii(lines + [line])
  {
    var all := lines + [line];
    forall k | 0 <= k < |all| ensures IsAscii(all[k]) && IsPlainLine(all[k]) {
      if k < |lines| {
        assert all[k] == lines[k];
      }
    }
  }

  /** Setting one line of plain ASCII lines to a plain ASCII line keeps them plain ASCII. */
  lemma PlainAsciiOfUpdate(lines: seq<string>, i: nat, line: string)
    requires PlainAscii(lines) && i < |lines| && IsAscii(line) && IsPlainLine(line)
    ensures PlainAscii(lines[i := line])
  {
  }

  /** appendLine on plain ASCII lines, when the write succeeds, leaves a file that reads as the old lines followed by the new one. */
  lemma AppendThenRead(p: Properties, fileTool: FileTool, d: Disk, line: string)
    requires ReadConfig(p, fileTool, d).Ok? && PlainAscii(ReadConfig(p, fileTool, d).value)
    requires IsAscii(line) && IsPlainLine(line) && line != []
    requires AppendLineEffect(p, fileTool, d, line).result.Ok?
    ensures ReadConfig(p, fileTool, AppendLineEffect(p, fileTool, d, line).disk)
      == Ok(ReadConfig(p, fileTool, d).value + [line])
  {
    var lines := ReadConfig(p, fileTool, d).value;
    PlainAsciiOfAppend(lines, line);
    WriteThenReadAscii(p, fileTool, d, lines + [line]);
    ReadBackOfAppended(lines, line);
  }

  /** removeLineByPrefix answers true exactly when some line matches, and otherwise leaves the disk as it was. */
  lemma RemoveWritesOnlyOnMatch(p: Properties, fileTool: FileTool, d: Disk, prefix: string)
    ensures var e := RemoveLineEffect(p, fileTool, d, prefix);
      var read := ReadConfig(p, fileTool, d);
      (e.result == Ok(false) <==> read.Ok? && forall k :: 0 <= k < |read.value| ==> !MatchesPrefix(read.value[k], prefix))
      && (e.result == Ok(false) || read.Err? ==> e.disk == d)
  {
    var read := ReadConfig(p, fileTool, d);
    if read.Ok? {
      RemoveMatchingKeepsNonMatching(read.value, prefix);
    }
  }

  /**
   * After a successful removal from plain ASCII lines, a second removal with
   * the same non-empty prefix answers false and changes nothing.
   */
  lemma RemoveTwice(p: Properties, fileTool: FileTool, d: Disk, prefix: string)
    requires prefix != []
    requires ReadConfig(p, fileTool, d).Ok? && PlainAscii(ReadConfig(p, fileTool, d).value)
    requires RemoveLineEffect(p, fileTool, d, prefix).result.Ok?
    ensures var d2 := RemoveLineEffect(p, fileTool, d, prefix).disk;
      RemoveLineEffect(p, fileTool, d2, prefix) == Effect(d2, Ok(false))
  {
    var lines := ReadConfig(p, fileTool, d).value;
    var kept := RemoveMatching(lines, prefix);
    RemoveMatchingKeepsNonMatching(lines, prefix);
    if |kept| != |lines| {
      assert PlainAscii(kept) by {
        RemoveMatchingKeepsLinesOf(lines, prefix);
      }
      WriteThenReadAscii(p, fileTool, d, kept);
      ReadBackOfRemoved(lines, prefix);
      NothingToRemove(ReadBack(kept), prefix);
    }
  }
}
