# VPN-Director core, modelled in Dafny

VPN-Director is a small web application for administering an OpenVPN server.
This project models the four pieces of it that carry logic of their own.

- **The configuration-file engine** (`OpenVpnConfigFileService`). It reads the
  server configuration whole, in a charset it guesses. It edits the file as a
  list of lines: replace the first line with a prefix, append a line, remove
  every line with a prefix, look up a value or a line. It writes the file back
  whole after a backup copy, with a UTF-8 retry. It restores from the `_bak`
  copy and resets to the `_default` copy.
- **The status-log parser** (`OpenVpnStatusService`). It reads
  `openvpn-status1194.log` line by line, takes the time of the last update and
  one record per connected client, and stops at the routing table. It shows UTC
  timestamps as Moscow wall-clock time, and each connection's age as days,
  hours and minutes.
- **Route management** (`IpManagementController`). An IPv4 address becomes a /24
  subnet route, or a /32 host route for a domain. A route already in the
  configuration is refused. Otherwise a comment line and the route are
  appended.
- **Certificates** (`CertificateController`). It lists the EasyRSA `index.txt`
  by the common name of each subject, and checks that the `.crt` and `.key`
  exist. It builds a client configuration by substituting the key and the
  certificate into a template, and names the download.

The Java library behaviour these rely on is modelled explicitly in
`java_text.dfy`, `charset_names.dfy` and `charsets.dfy`:

- `String.trim`, `startsWith`, `contains`, `indexOf` and literal `replace`.
- The three `split` patterns the source uses (one character, `\r?\n`, `\s+`
  with limit 2), with Java's dropping of trailing empty strings.
- `BufferedReader` line splitting.
- `%d` and `%02d`.
- The five charsets the source names (UTF-8, Windows-1251, KOI8-R, CP866,
  ISO-8859-1), as decode tables with U+FFFD for unmappable input, plus
  `Charset.forName` as a case-insensitive alias lookup.

The file system (`file_system.dfy`) is a map from path to bytes. It also holds
a script of faults, one consumed by each copy or write, so a failed write is an
input rather than chance. A fault also says what the failure left at the target:
the old bytes, no file, or a prefix of what was being written. A failed write is
therefore not assumed to be atomic.

Where the source changes state, the model is a class:

- `FileSystem`, `ConfigFileService` and `StatusInfo` hold the state.
- `StatusService`, `IpManagementController` and `CertificateController` work on
  it.

Each method is proved equal to a function from the old state to the new state
and the result; for example `ConfigFileService.WriteConfig` and
`IpManagement.AddIpEffect`. The lemmas are stated about those functions.

## Model

| member | source | states |
|---|---|---|
| JavaText.TrimStartSpec | src/main/java/ru/rs/vpndirector/service/OpenVpnConfigFileService.java:136 | what remains after the leading part of `trim` is a suffix of the input, and it is empty or starts with a character above U+0020; every character dropped is at most U+0020 |
| JavaText.TrimEndSpec | src/main/java/ru/rs/vpndirector/service/OpenVpnConfigFileService.java:136 | what remains after the trailing part of `trim` is a prefix of the input, and it is empty or ends with a character above U+0020; every character dropped is at most U+0020 |
| JavaText.BlankIffAllTrimSpace | src/main/java/ru/rs/vpndirector/service/OpenVpnConfigFileService.java:136 | `s.trim().isEmpty()` holds exactly when every character is at most U+0020 |
| JavaText.TrimIdempotent | src/main/java/ru/rs/vpndirector/service/OpenVpnStatusService.java:143-147 | trimming an already trimmed line changes nothing |
| JavaText.TrimFixedPoint | src/main/java/ru/rs/vpndirector/service/OpenVpnStatusService.java:143 | `trim` leaves a string unchanged exactly when it is empty or neither end is at most U+0020 |
| JavaText.TrimIsInfix | src/main/java/ru/rs/vpndirector/controller/IpManagementController.java:55 | every character of the trimmed string comes from the original, and the result is empty or neither end is a trim space |
| JavaText.IndexOfFrom | src/main/java/ru/rs/vpndirector/service/OpenVpnStatusService.java:197-198 | the result is an occurrence at or after `from` with no occurrence before it, or none when there is no occurrence |
| JavaText.IndexOf | src/main/java/ru/rs/vpndirector/service/OpenVpnStatusService.java:197-198 | `indexOf` finds something exactly when `contains` holds, and what it finds is the leftmost occurrence |
| JavaText.IndexOfChar | src/main/java/ru/rs/vpndirector/service/OpenVpnStatusService.java:197-198 | searching for one character gives none exactly when the character is absent, else the index of its first occurrence |
| JavaText.ReplaceByItself | src/main/java/ru/rs/vpndirector/controller/CertificateController.java:146-148 | replacing a target by itself returns the string unchanged |
| JavaText.ReplaceAbsent | src/main/java/ru/rs/vpndirector/controller/CertificateController.java:146-148 | a string that does not contain the target is returned unchanged |
| JavaText.Fields | src/main/java/ru/rs/vpndirector/controller/IpManagementController.java:36 | a split keeps at least one piece, and no piece contains the separator |
| JavaText.JoinFields | src/main/java/ru/rs/vpndirector/controller/IpManagementController.java:36 | joining the pieces with the separator gives back the original string |
| JavaText.DropTrailingEmpty | src/main/java/ru/rs/vpndirector/service/OpenVpnStatusService.java:187 | the result is a prefix of the input that does not end in an empty string, and everything dropped is empty |
| JavaText.SplitOnChar | src/main/java/ru/rs/vpndirector/controller/IpManagementController.java:36 | no field of a one-character `split` contains the separator |
| JavaText.FieldsOfJoin | src/main/java/ru/rs/vpndirector/service/OpenVpnStatusService.java:187 | splitting separator-free fields joined by the separator gives those fields |
| JavaText.DropTrailingEmpties | src/main/java/ru/rs/vpndirector/service/OpenVpnStatusService.java:187 | dropping trailing empties removes exactly the empty strings appended after a last non-empty field |
| JavaText.SplitOfJoin | src/main/java/ru/rs/vpndirector/service/OpenVpnStatusService.java:187 | `split` of fields joined by the separator, with trailing empty fields, gives the fields without those empties |
| JavaText.LinePieces | src/main/java/ru/rs/vpndirector/service/OpenVpnConfigFileService.java:64 | splitting at `\r?\n` keeps at least one piece |
| JavaText.FirstSpace | src/main/java/ru/rs/vpndirector/service/OpenVpnConfigFileService.java:290 | the index of the first `\s` character at or after `from`, or the end of the string |
| JavaText.EndOfSpaces | src/main/java/ru/rs/vpndirector/service/OpenVpnConfigFileService.java:290 | the index just past the run of `\s` characters that starts at `from` |
| JavaText.SplitOnWhitespaceOnce | src/main/java/ru/rs/vpndirector/service/OpenVpnConfigFileService.java:290-291 | `split("\\s+", 2)` gives one or two parts, and two exactly when the string holds a whitespace character |
| JavaText.FirstLineBreak | src/main/java/ru/rs/vpndirector/service/OpenVpnStatusService.java:49 | the index of the first `\n` or `\r`, with no line break before it |
| JavaText.FirstLineBreakOfLine | src/main/java/ru/rs/vpndirector/service/OpenVpnStatusService.java:49 | for a line without line breaks followed by `\n`, the first line break is that newline |
| JavaText.ReaderLinesOfTerminated | src/main/java/ru/rs/vpndirector/service/OpenVpnStatusService.java:49 | reading lines back from text where each line ends in a newline gives the lines |
| JavaText.ToLowerAscii | src/main/java/ru/rs/vpndirector/service/OpenVpnConfigFileService.java:49 | case folding of a charset name keeps its length |
| JavaText.NatToDecimal | src/main/java/ru/rs/vpndirector/service/OpenVpnStatusService.java:126 | `%d` of a non-negative number is at least one decimal digit |
| JavaText.ZeroPad2 | src/main/java/ru/rs/vpndirector/service/OpenVpnStatusService.java:126 | `%02d` of a non-negative value is at least two digits that read back as the value; a negative value is a minus sign and the digits of its magnitude |
| JavaText.DecimalRoundTrip | src/main/java/ru/rs/vpndirector/service/OpenVpnStatusService.java:126 | reading back the digits `%d` prints gives the number |
| CharsetNames.Name | src/main/java/ru/rs/vpndirector/service/OpenVpnConfigFileService.java:68 | looking up a charset's canonical name with `Charset.forName` finds that charset again |
| CharsetNames.ForName | src/main/java/ru/rs/vpndirector/service/OpenVpnConfigFileService.java:49-53 | a name is supported exactly when its lower-case form is an alias of some charset, and then that charset is returned |
| CharsetNames.ForNameOfAlias | src/main/java/ru/rs/vpndirector/service/OpenVpnConfigFileService.java:49 | a name that is a charset's first alias, in any case, names that charset |
| CharsetNames.ForNameOfDefaultName | src/main/java/ru/rs/vpndirector/service/OpenVpnConfigFileService.java:52 | `"Windows-1251"` names Windows-1251 |
| CharsetNames.NamesUtf8 | src/main/java/ru/rs/vpndirector/service/OpenVpnConfigFileService.java:77 | "UTF-8" names UTF-8 |
| Charsets.EncodeByte | src/main/java/ru/rs/vpndirector/service/OpenVpnConfigFileService.java:176 | a character a single-byte charset can encode has a byte that decodes back to it |
| Charsets.Utf8Next | src/main/java/ru/rs/vpndirector/service/OpenVpnConfigFileService.java:63 | one UTF-8 decoding step takes one to four bytes, and a malformed sequence yields U+FFFD |
| Charsets.Utf8NextIsEncoding | src/main/java/ru/rs/vpndirector/service/OpenVpnConfigFileService.java:63 | a well-formed decoding step consumed exactly the UTF-8 encoding of the character it yields |
| Charsets.EncodedSurrogateDecoding | src/main/java/ru/rs/vpndirector/service/OpenVpnConfigFileService.java:63 | an encoded surrogate `ED A0 80` decodes as one U+FFFD; `ED A0` followed by a non-continuation byte, or by nothing, is one U+FFFD for its two bytes; a strict decoder refuses the surrogate |
| Charsets.Utf8RoundTrip | src/main/java/ru/rs/vpndirector/controller/CertificateController.java:131 | decoding the UTF-8 encoding of any text gives the text, and the encoding is well formed |
| Charsets.CleanDecodeIsWellFormed | src/main/java/ru/rs/vpndirector/service/OpenVpnConfigFileService.java:339-357 | bytes whose lenient UTF-8 decode has no U+FFFD and re-encodes to the same bytes are well-formed UTF-8 |
| Charsets.Encode | src/main/java/ru/rs/vpndirector/service/OpenVpnConfigFileService.java:194 | a single-byte charset writes one byte per character |
| Charsets.DecodeEncode | src/main/java/ru/rs/vpndirector/service/OpenVpnConfigFileService.java:194 | decoding in a charset what that charset encoded gives the text back |
| Charsets.AsciiEncodesIdentically | src/main/java/ru/rs/vpndirector/service/OpenVpnConfigFileService.java:182-194 | every charset can encode ASCII text, and encodes it as the ASCII bytes |
| Charsets.Iso88591NeverReplaces | src/main/java/ru/rs/vpndirector/service/OpenVpnConfigFileService.java:81 | ISO-8859-1 maps every byte, so its decode never holds U+FFFD |
| Charsets.DecodeAscii | src/main/java/ru/rs/vpndirector/service/OpenVpnConfigFileService.java:63 | every charset decodes ASCII bytes as the ASCII text |
| Files.Store | src/main/java/ru/rs/vpndirector/service/OpenVpnConfigFileService.java:194-195 | a write consumes one fault and succeeds exactly when that fault is off, and then the path holds the content; a failed write leaves the path absent, holding its old bytes, or holding a prefix of the content; no other path ever changes |
| Files.CopyFile | src/main/java/ru/rs/vpndirector/service/OpenVpnConfigFileService.java:122 | a copy succeeds exactly when the source exists and the fault is off, and then the target holds the source's bytes; a missing source changes nothing; any other failure leaves the target absent, holding its old bytes, or holding a prefix of the source's bytes; no other path ever changes |
| Files.OtherPathsUnchanged | src/main/java/ru/rs/vpndirector/service/OpenVpnConfigFileService.java:194-195 | a write never changes which other paths exist or what they hold |
| Files.FileSystem.Exists | src/main/java/ru/rs/vpndirector/service/OpenVpnConfigFileService.java:38 | `Files.exists` answers whether the path is in the file map |
| Files.FileSystem.ReadAllBytes | src/main/java/ru/rs/vpndirector/service/OpenVpnConfigFileService.java:59 | `Files.readAllBytes` returns the file's bytes |
| Files.FileSystem.Write | src/main/java/ru/rs/vpndirector/service/OpenVpnConfigFileService.java:194-195 | the new state is the `Store` of the old state: on success the path holds the content, on failure it is absent, unchanged or a prefix of the content, and no other path changes |
| Files.FileSystem.Copy | src/main/java/ru/rs/vpndirector/service/OpenVpnConfigFileService.java:122 | the new state is the `CopyFile` of the old state: on success the target holds the source's bytes, on failure it is absent, unchanged or a prefix of them, and no other path changes |
| EncodingDetection.EncodedTextIsValidUtf8 | src/main/java/ru/rs/vpndirector/service/OpenVpnConfigFileService.java:339-357 | any text free of U+FFFD, encoded as UTF-8, passes `isValidUTF8` |
| EncodingDetection.ValidUtf8IsWellFormed | src/main/java/ru/rs/vpndirector/service/OpenVpnConfigFileService.java:339-357 | bytes that pass `isValidUTF8` are well-formed UTF-8 |
| EncodingDetection.CountsBounded | src/main/java/ru/rs/vpndirector/service/OpenVpnConfigFileService.java:418-427 | the Cyrillic count plus the printable-ASCII count never exceeds the length |
| EncodingDetection.Int32 | src/main/java/ru/rs/vpndirector/service/OpenVpnConfigFileService.java:431 | the `(int)` cast keeps the value modulo 2^32, inside the 32-bit range |
| EncodingDetection.ScoreDoesNotWrap | src/main/java/ru/rs/vpndirector/service/OpenVpnConfigFileService.java:430-431 | for files under about 200 MB the score is `10*cyr + ascii`, and a qualifying candidate's score is positive |
| EncodingDetection.Best | src/main/java/ru/rs/vpndirector/service/OpenVpnConfigFileService.java:405-440 | the best score is never negative, and it is 0 when there is no match |
| EncodingDetection.BestIsFirstMaximum | src/main/java/ru/rs/vpndirector/service/OpenVpnConfigFileService.java:405-440 | there is no match exactly when no code page ranks above 0; otherwise the match has the highest rank, and every earlier code page ranks strictly lower |
| EncodingDetection.BestStep | src/main/java/ru/rs/vpndirector/service/OpenVpnConfigFileService.java:432-435 | one more code page replaces the match only when its rank is strictly higher |
| EncodingDetection.AssessCandidate | src/main/java/ru/rs/vpndirector/service/OpenVpnConfigFileService.java:410-431 | a code page qualifies exactly when its decode has no U+FFFD, holds Cyrillic, and is more than 80% Cyrillic or printable ASCII; its rank is then its score |
| EncodingDetection.BestLegacyMatch | src/main/java/ru/rs/vpndirector/service/OpenVpnConfigFileService.java:399-440 | the loop ends with the match and score that `Best` specifies |
| EncodingDetection.ExplicitEncoding | src/main/java/ru/rs/vpndirector/service/OpenVpnConfigFileService.java:373-377 | an override counts exactly when it is present and not blank, and it is used trimmed |
| EncodingDetection.CharsetFromFileOutput | src/main/java/ru/rs/vpndirector/service/OpenVpnConfigFileService.java:453-457 | the utility gives a name exactly when its line contains `charset=`, and the name is the trimmed text after the first occurrence |
| EncodingDetection.DetectionAnswersIffFileExists | src/main/java/ru/rs/vpndirector/service/OpenVpnConfigFileService.java:364-470 | detection answers exactly when the file exists, whatever the override says |
| EncodingDetection.OverrideWins | src/main/java/ru/rs/vpndirector/service/OpenVpnConfigFileService.java:373-377 | a non-blank override is returned trimmed, whatever the content |
| EncodingDetection.Utf8TextDetected | src/main/java/ru/rs/vpndirector/service/OpenVpnConfigFileService.java:383-394 | without an override, any text free of U+FFFD written as UTF-8 is detected as "UTF-8" |
| EncodingDetection.LegacyChoice | src/main/java/ru/rs/vpndirector/service/OpenVpnConfigFileService.java:399-465 | for content that is not UTF-8, the answer is the first highest-ranked code page when one ranks above 0, else the utility's answer or "Windows-1251" |
| ConfigDocument.FirstMatch | src/main/java/ru/rs/vpndirector/service/OpenVpnConfigFileService.java:223-231 | the index of the first line whose trimmed text starts with the prefix, with no such line before it; none exactly when no line matches |
| ConfigDocument.ReplaceFirstChangesOnlyFirstMatch | src/main/java/ru/rs/vpndirector/service/OpenVpnConfigFileService.java:219-240 | a replacement happens exactly when some line matches; only the first matching line becomes `newValue` verbatim, and the length and every other line stay |
| ConfigDocument.RemoveMatching | src/main/java/ru/rs/vpndirector/service/OpenVpnConfigFileService.java:264 | removal never makes the list longer |
| ConfigDocument.RemoveMatchingConcat | src/main/java/ru/rs/vpndirector/service/OpenVpnConfigFileService.java:264 | removal works line by line, so the kept lines keep their order |
| ConfigDocument.RemoveMatchingKeepsNonMatching | src/main/java/ru/rs/vpndirector/service/OpenVpnConfigFileService.java:264 | no kept line matches, every non-matching line is kept, and the list gets shorter exactly when some line matches |
| ConfigDocument.RemoveMatchingKeepsLinesOf | src/main/java/ru/rs/vpndirector/service/OpenVpnConfigFileService.java:264 | every kept line is one of the original lines |
| ConfigDocument.ReadBackOfRemoved | src/main/java/ru/rs/vpndirector/service/OpenVpnConfigFileService.java:262-274 | with a non-empty prefix, no line read back after a removal matches it |
| ConfigDocument.RemoveMatchingIdempotent | src/main/java/ru/rs/vpndirector/service/OpenVpnConfigFileService.java:262-274 | a second removal with the same prefix changes nothing |
| ConfigDocument.NothingToRemove | src/main/java/ru/rs/vpndirector/service/OpenVpnConfigFileService.java:264-271 | without a matching line, removal returns the list unchanged |
| ConfigDocument.FindContaining | src/main/java/ru/rs/vpndirector/service/OpenVpnConfigFileService.java:326-334 | the first line, untrimmed, that contains the text; none exactly when no line contains it |
| ConfigDocument.ConfigValue | src/main/java/ru/rs/vpndirector/service/OpenVpnConfigFileService.java:283-298 | none exactly when no trimmed line starts with the key and holds whitespace; otherwise the trimmed rest of the first such line |
| ConfigDocument.ValueIsRestOfLine | src/main/java/ru/rs/vpndirector/service/OpenVpnConfigFileService.java:283-298 | `key value…` gives back the whole rest of the line, not only its first word |
| ConfigDocument.ReplaceFirstInPlace | src/main/java/ru/rs/vpndirector/service/OpenVpnConfigFileService.java:223-231 | the indexed loop with `break` sets exactly the first matching line, and reports whether it found one |
| ConfigDocument.RemoveIf | src/main/java/ru/rs/vpndirector/service/OpenVpnConfigFileService.java:264 | `removeIf` keeps exactly the lines that do not match, in order |
| ConfigDocument.ValueInLines | src/main/java/ru/rs/vpndirector/service/OpenVpnConfigFileService.java:286-297 | the loop returns the value `ConfigValue` specifies |
| ConfigDocument.FirstContaining | src/main/java/ru/rs/vpndirector/service/OpenVpnConfigFileService.java:328-333 | the loop returns the line `FindContaining` specifies |
| ConfigDocument.MaskNonAscii | src/main/java/ru/rs/vpndirector/service/OpenVpnConfigFileService.java:182 | the masked line has the same length and is ASCII; ASCII characters stay, and every other character becomes `?` |
| ConfigDocument.SafeLineProperties | src/main/java/ru/rs/vpndirector/service/OpenVpnConfigFileService.java:173-190 | a safe line can always be encoded and keeps its length and its ASCII characters; a line the charset can encode is kept unchanged |
| ConfigDocument.CanEncodeConcat | src/main/java/ru/rs/vpndirector/service/OpenVpnConfigFileService.java:194 | two encodable texts make an encodable text |
| ConfigDocument.LinesTextEncodable | src/main/java/ru/rs/vpndirector/service/OpenVpnConfigFileService.java:194 | lines a charset can encode make a file text it can encode |
| ConfigDocument.SafeLines | src/main/java/ru/rs/vpndirector/service/OpenVpnConfigFileService.java:172-191 | one safe line per line, in order |
| ConfigDocument.SafeTextEncodable | src/main/java/ru/rs/vpndirector/service/OpenVpnConfigFileService.java:166-195 | the sanitised text can always be encoded, so the first write never meets an unmappable character |
| ConfigDocument.LinesTextAvoids | src/main/java/ru/rs/vpndirector/service/OpenVpnConfigFileService.java:194 | a character other than newline that no line holds is not in the written text |
| ConfigDocument.LinesTextAscii | src/main/java/ru/rs/vpndirector/service/OpenVpnConfigFileService.java:194 | ASCII lines make ASCII text |
| ConfigDocument.LinePiecesAvoid | src/main/java/ru/rs/vpndirector/service/OpenVpnConfigFileService.java:64 | the pieces of a `\r?\n` split hold only characters of the text |
| ConfigDocument.SplitLinesAvoid | src/main/java/ru/rs/vpndirector/service/OpenVpnConfigFileService.java:64 | a character absent from the text is absent from every line read from it |
| ConfigDocument.LinePiecesOfText | src/main/java/ru/rs/vpndirector/service/OpenVpnConfigFileService.java:64 | written lines without line breaks split back into those lines and one final empty piece |
| ConfigDocument.DropTrailingEmptyOfPadded | src/main/java/ru/rs/vpndirector/service/OpenVpnConfigFileService.java:64 | one more empty piece at the end changes nothing once trailing empties are dropped |
| ConfigDocument.SplitLinesOfText | src/main/java/ru/rs/vpndirector/service/OpenVpnConfigFileService.java:64 | reading the written text gives the lines back, without trailing empty lines |
| ConfigDocument.ReadBackOfAppended | src/main/java/ru/rs/vpndirector/service/OpenVpnConfigFileService.java:250 | a list that ends in a non-empty line reads back as itself |
| ConfigFileService.PathsDistinct | src/main/java/ru/rs/vpndirector/config/OpenVpnProperties.java:21-23 | the configuration, its `_bak` and its `_default` are three different paths |
| ConfigFileService.CharsetOrDefault | src/main/java/ru/rs/vpndirector/service/OpenVpnConfigFileService.java:47-57 | a supported name gives its charset; no name or an unsupported one gives Windows-1251 |
| ConfigFileService.FirstClean | src/main/java/ru/rs/vpndirector/service/OpenVpnConfigFileService.java:84-99 | the first fallback, other than the charset already tried, whose decode has no U+FFFD; none exactly when no such fallback exists; every fallback before the chosen one, other than the charset already tried, leaves a U+FFFD |
| ConfigFileService.ReadCharsetIsFirstClean | src/main/java/ru/rs/vpndirector/service/OpenVpnConfigFileService.java:62-104 | the read decodes cleanly: with the detected charset if that is clean, else with the first clean fallback, which always exists because ISO-8859-1 maps every byte |
| ConfigFileService.ReadConfig | src/main/java/ru/rs/vpndirector/service/OpenVpnConfigFileService.java:34-105 | reading fails only with "configuration not found" |
| ConfigFileService.ConfigFileService.constructor | src/main/java/ru/rs/vpndirector/service/OpenVpnConfigFileService.java:34-35 | the service reads and writes the given properties, file system and `file` utility |
| ConfigFileService.ConfigFileService.ConfigFileExists | src/main/java/ru/rs/vpndirector/service/OpenVpnConfigFileService.java:305-308 | answers whether the configuration is on disk |
| ConfigFileService.ConfigFileService.BackupExists | src/main/java/ru/rs/vpndirector/service/OpenVpnConfigFileService.java:495-499 | answers whether `_bak` is on disk |
| ConfigFileService.ConfigFileService.DefaultFileExists | src/main/java/ru/rs/vpndirector/service/OpenVpnConfigFileService.java:536-540 | answers whether `_default` is on disk |
| ConfigFileService.ConfigFileService.DetectFileEncoding | src/main/java/ru/rs/vpndirector/service/OpenVpnConfigFileService.java:364-470 | returns the answer the detection function gives for the disk |
| ConfigFileService.ConfigFileService.ReadConfigFile | src/main/java/ru/rs/vpndirector/service/OpenVpnConfigFileService.java:34-105 | returns what `ReadConfig` gives for the disk |
| ConfigFileService.ConfigFileService.WriteConfigFile | src/main/java/ru/rs/vpndirector/service/OpenVpnConfigFileService.java:113-209 | the new disk and the result are those of `WriteConfig` on the old disk |
| ConfigFileService.ConfigFileService.ReplaceLineByPrefix | src/main/java/ru/rs/vpndirector/service/OpenVpnConfigFileService.java:219-240 | the new disk and the result are those of `ReplaceLineEffect` on the old disk |
| ConfigFileService.ConfigFileService.AppendLine | src/main/java/ru/rs/vpndirector/service/OpenVpnConfigFileService.java:248-253 | the new disk and the result are those of `AppendLineEffect` on the old disk |
| ConfigFileService.ConfigFileService.RemoveLineByPrefix | src/main/java/ru/rs/vpndirector/service/OpenVpnConfigFileService.java:262-274 | the new disk and the result are those of `RemoveLineEffect` on the old disk |
| ConfigFileService.ConfigFileService.GetConfigValue | src/main/java/ru/rs/vpndirector/service/OpenVpnConfigFileService.java:283-298 | returns the value of the key in the lines read, or the read's error |
| ConfigFileService.ConfigFileService.FindLineContaining | src/main/java/ru/rs/vpndirector/service/OpenVpnConfigFileService.java:326-334 | returns the first line containing the text in the lines read, or the read's error |
| ConfigFileService.ConfigFileService.RestoreFromBackup | src/main/java/ru/rs/vpndirector/service/OpenVpnConfigFileService.java:477-488 | the new disk and the result are those of `Restore` on the old disk |
| ConfigFileService.ConfigFileService.ResetToDefault | src/main/java/ru/rs/vpndirector/service/OpenVpnConfigFileService.java:506-529 | the new disk and the result are those of `Reset` on the old disk |
| ConfigLifecycle.ReadFailsOnlyWhenMissing | src/main/java/ru/rs/vpndirector/service/OpenVpnConfigFileService.java:38-41 | reading fails exactly when the configuration file is missing |
| ConfigLifecycle.ReadLinesAreClean | src/main/java/ru/rs/vpndirector/service/OpenVpnConfigFileService.java:62-104 | no line that is read holds a U+FFFD |
| ConfigLifecycle.BackUpKeepsConfig | src/main/java/ru/rs/vpndirector/service/OpenVpnConfigFileService.java:118-127 | the backup copy changes neither the configuration nor the default copy |
| ConfigLifecycle.WriteBacksUpOldConfig | src/main/java/ru/rs/vpndirector/service/OpenVpnConfigFileService.java:118-127 | when the configuration exists and the copy succeeds, `_bak` holds the bytes from before the write |
| ConfigLifecycle.WriteFailsOnlyIfBothWritesFail | src/main/java/ru/rs/vpndirector/service/OpenVpnConfigFileService.java:166-208 | a write throws exactly when both the write in the chosen charset and the UTF-8 retry fail |
| ConfigLifecycle.FailedWriteLeavesPartialConfig | src/main/java/ru/rs/vpndirector/service/OpenVpnConfigFileService.java:194-206 | after a write that throws, the configuration is absent, holds its old bytes, or holds a prefix of the bytes of the first write or of the UTF-8 retry; no path but the configuration and `_bak` has changed |
| ConfigLifecycle.WrittenBytes | src/main/java/ru/rs/vpndirector/service/OpenVpnConfigFileService.java:166-203 | after a successful write the file holds the sanitised lines in the write charset, or the original lines in UTF-8 |
| ConfigLifecycle.WriteKeepsDefault | src/main/java/ru/rs/vpndirector/service/OpenVpnConfigFileService.java:113-209 | a write never touches `_default` |
| ConfigLifecycle.RestoreWithoutBackup | src/main/java/ru/rs/vpndirector/service/OpenVpnConfigFileService.java:482-484 | without a backup, restore throws and the disk is unchanged |
| ConfigLifecycle.RestoreCopiesBackup | src/main/java/ru/rs/vpndirector/service/OpenVpnConfigFileService.java:486 | with a backup and a successful copy, the configuration becomes the backup's bytes and the backup stays |
| ConfigLifecycle.RestoreUndoesWrite | src/main/java/ru/rs/vpndirector/service/OpenVpnConfigFileService.java:118-127 | restoring right after a write gives back the configuration from before the write, when both copies succeed |
| ConfigLifecycle.ResetWithoutDefault | src/main/java/ru/rs/vpndirector/service/OpenVpnConfigFileService.java:511-513 | without a default, reset throws before any backup is taken, and the disk is unchanged |
| ConfigLifecycle.ResetCopiesDefault | src/main/java/ru/rs/vpndirector/service/OpenVpnConfigFileService.java:516-527 | reset never changes `_default`; on success the configuration holds the default's bytes, and an existing configuration was copied to `_bak` first |
| ConfigLifecycle.AsciiHasNoReplacement | src/main/java/ru/rs/vpndirector/service/OpenVpnConfigFileService.java:67 | ASCII text holds no U+FFFD |
| ConfigLifecycle.SafeLinesOfAscii | src/main/java/ru/rs/vpndirector/service/OpenVpnConfigFileService.java:176-177 | ASCII lines are written unchanged in every charset |
| ConfigLifecycle.ReadOfAsciiText | src/main/java/ru/rs/vpndirector/service/OpenVpnConfigFileService.java:62-104 | ASCII bytes read as that text split into lines, whichever charset is chosen |
| ConfigLifecycle.WriteThenReadAscii | src/main/java/ru/rs/vpndirector/service/OpenVpnConfigFileService.java:113-209 | after a successful write of plain ASCII lines, reading gives those lines back, without trailing empty lines |
| ConfigLifecycle.WriteThenReadUtf8 | src/main/java/ru/rs/vpndirector/service/OpenVpnConfigFileService.java:148-195 | without an override, a configuration that is valid UTF-8 is rewritten in UTF-8, and lines free of U+FFFD read back as written, without trailing empty lines |
| ConfigLifecycle.WriteThenReadOverride | src/main/java/ru/rs/vpndirector/service/OpenVpnConfigFileService.java:136-145 | with a supported override that can encode the lines, lines free of U+FFFD read back as written, without trailing empty lines, when the first write succeeds |
| ConfigLifecycle.ReplaceWritesOnlyOnMatch | src/main/java/ru/rs/vpndirector/service/OpenVpnConfigFileService.java:219-240 | replace answers false exactly when the read succeeds and no line matches; true means some line matched; the disk changes only when something is written |
| ConfigLifecycle.ReplaceThenRead | src/main/java/ru/rs/vpndirector/service/OpenVpnConfigFileService.java:219-240 | when the configuration read as plain ASCII lines and `newValue` is a plain ASCII line, after a successful replace the file reads as the old lines with the first matching line set to `newValue`, without trailing empty lines |
| ConfigLifecycle.AppendThenRead | src/main/java/ru/rs/vpndirector/service/OpenVpnConfigFileService.java:248-253 | when the configuration read as plain ASCII lines and the appended line is a non-empty plain ASCII line, after a successful append the file reads as the old lines followed by the new one |
| ConfigLifecycle.RemoveWritesOnlyOnMatch | src/main/java/ru/rs/vpndirector/service/OpenVpnConfigFileService.java:262-274 | remove answers false exactly when the read succeeds and no line matches, and then the disk is unchanged |
| ConfigLifecycle.RemoveTwice | src/main/java/ru/rs/vpndirector/service/OpenVpnConfigFileService.java:262-274 | when the configuration read as plain ASCII lines, a second removal with the same non-empty prefix answers false and changes nothing |
| StatusTime.MonthLength | src/main/java/ru/rs/vpndirector/service/OpenVpnStatusService.java:81 | every month has 28 to 31 days |
| StatusTime.UnixEpochDayIsNewYear1970 | src/main/java/ru/rs/vpndirector/service/OpenVpnStatusService.java:85 | the epoch day number is that of 1970-01-01 |
| StatusTime.DaysBeforeDecember | src/main/java/ru/rs/vpndirector/service/OpenVpnStatusService.java:81 | the twelve months make up the year |
| StatusTime.DaysBeforeNextYear | src/main/java/ru/rs/vpndirector/service/OpenVpnStatusService.java:81 | consecutive years are one year's length apart |
| StatusTime.NextDateIsNextDay | src/main/java/ru/rs/vpndirector/service/OpenVpnStatusService.java:86 | the next date is valid and one day later |
| StatusTime.ToMoscowIsSameInstant | src/main/java/ru/rs/vpndirector/service/OpenVpnStatusService.java:85-86 | the Moscow wall clock is a valid time naming the same instant, three hours ahead |
| StatusTime.Pad2 | src/main/java/ru/rs/vpndirector/service/OpenVpnStatusService.java:89 | two-digit zero padding reads back as the number |
| StatusTime.Pad4 | src/main/java/ru/rs/vpndirector/service/OpenVpnStatusService.java:89 | four-digit zero padding reads back as the number |
| StatusTime.Resolve | src/main/java/ru/rs/vpndirector/service/OpenVpnStatusService.java:81 | a resolved date and time is valid |
| StatusTime.ParseDateTime | src/main/java/ru/rs/vpndirector/service/OpenVpnStatusService.java:81 | a parsed date and time is valid and was read from exactly 19 characters |
| StatusTime.ParseFieldsText | src/main/java/ru/rs/vpndirector/service/OpenVpnStatusService.java:29 | text in the `yyyy-MM-dd HH:mm:ss` layout is read field by field and then resolved |
| StatusTime.ParseInputText | src/main/java/ru/rs/vpndirector/service/OpenVpnStatusService.java:29 | every valid time the log's format prints is read back as itself |
| StatusTime.DayPastMonthEndIsClamped | src/main/java/ru/rs/vpndirector/service/OpenVpnStatusService.java:81 | a day past the end of its month, up to 31, is read as the month's last day; day 32 is refused |
| StatusTime.EndOfDayIsNextMidnight | src/main/java/ru/rs/vpndirector/service/OpenVpnStatusService.java:81 | `24:00:00` is read as the next day's midnight, even across a year; `24:00:01` is refused |
| StatusTime.ConvertShowsSameInstant | src/main/java/ru/rs/vpndirector/service/OpenVpnStatusService.java:74-98 | unparsable text is returned unchanged; otherwise the result shows Moscow's wall clock for the same instant |
| StatusTime.PartsDecompose | src/main/java/ru/rs/vpndirector/service/OpenVpnStatusService.java:122-124 | a duration is whole days, hours below 24 and minutes below 60; a negative duration has each part negated, as Java's truncating division gives |
| StatusTime.ElapsedSinceInstant | src/main/java/ru/rs/vpndirector/service/OpenVpnStatusService.java:103-120 | for text that parses, the time elapsed is the time from its instant to `now` |
| StatusTime.UnparsableStartIsDash | src/main/java/ru/rs/vpndirector/service/OpenVpnStatusService.java:103-131 | text that does not parse has no elapsed time and is shown as `-` |
| StatusTime.PartsOfNat | src/main/java/ru/rs/vpndirector/service/OpenVpnStatusService.java:122-124 | a non-negative duration is whole days, hours below 24, minutes below 60 and leftover seconds |
| StatusTime.PartsOfNegative | src/main/java/ru/rs/vpndirector/service/OpenVpnStatusService.java:122-124 | a negative duration has the parts of its absolute value, negated |
| StatusTime.DurationIsZoneIndependent | src/main/java/ru/rs/vpndirector/service/OpenVpnStatusService.java:109-120 | converting the start to Moscow first gives the same elapsed time |
| StatusTime.NewYear2025 | src/main/java/ru/rs/vpndirector/service/OpenVpnStatusService.java:85 | 2025-01-01 00:00:00 UTC is 1735689600 seconds after the epoch |
| StatusService.StatusCharset | src/main/java/ru/rs/vpndirector/service/OpenVpnStatusService.java:59-68 | the override's charset when it is non-blank and supported, else UTF-8 |
| StatusService.ReadStatus | src/main/java/ru/rs/vpndirector/service/OpenVpnStatusService.java:36-54 | "not found" exactly when the log is missing; "undecodable" exactly when it exists but decodes strictly in neither the chosen charset nor UTF-8 |
| StatusService.ReadUtf8Log | src/main/java/ru/rs/vpndirector/service/OpenVpnStatusService.java:36-54 | without an override, a log written in UTF-8 reads back line for line |
| StatusService.Iso88591LogAlwaysReads | src/main/java/ru/rs/vpndirector/service/OpenVpnStatusService.java:46-49 | with ISO-8859-1 forced, an existing log is always read |
| StatusService.AddressIp | src/main/java/ru/rs/vpndirector/service/OpenVpnStatusService.java:196-201 | the address up to its first `:`, or the whole address when there is none |
| StatusService.AddressIpOfHostPort | src/main/java/ru/rs/vpndirector/service/OpenVpnStatusService.java:196-198 | `host:port` gives the host |
| StatusService.ParseConnectionLine | src/main/java/ru/rs/vpndirector/service/OpenVpnStatusService.java:185-219 | a record exactly when the comma split, after trailing empties are dropped, has at least 5 fields |
| StatusService.ParseFields | src/main/java/ru/rs/vpndirector/service/OpenVpnStatusService.java:187-212 | a line of comma-free fields gives a record exactly when at least 5 fields remain, built from those fields |
| StatusService.ParseOpenVpnRecord | src/main/java/ru/rs/vpndirector/service/OpenVpnStatusService.java:183-212 | a connection line as OpenVPN writes it gives the trimmed name, the host without port, and the time and duration from field 4 |
| StatusService.ScanAppend | src/main/java/ru/rs/vpndirector/service/OpenVpnStatusService.java:142-176 | scanning two pieces in a row is scanning their concatenation |
| StatusService.StoppedStaysPut | src/main/java/ru/rs/vpndirector/service/OpenVpnStatusService.java:160-162 | once the scan has stopped, no line changes anything |
| StatusService.TitlesAreNotUpdates | src/main/java/ru/rs/vpndirector/service/OpenVpnStatusService.java:146-160 | neither section title is an `Updated,` line |
| StatusService.NothingAfterRoutingTable | src/main/java/ru/rs/vpndirector/service/OpenVpnStatusService.java:160-162 | no line after the first `ROUTING TABLE` affects the result |
| StatusService.ParseStatusOfBody | src/main/java/ru/rs/vpndirector/service/OpenVpnStatusService.java:160-162 | parsing a file gives what parsing its lines before the first `ROUTING TABLE` gives |
| StatusService.FirstTitled | src/main/java/ru/rs/vpndirector/service/OpenVpnStatusService.java:154-160 | the index of the first line whose trimmed text is the title, or the number of lines |
| StatusService.RecordOf | src/main/java/ru/rs/vpndirector/service/OpenVpnStatusService.java:170-174 | a line gives at most one record, and only when its trimmed text is a record line |
| StatusService.StepInClientList | src/main/java/ru/rs/vpndirector/service/OpenVpnStatusService.java:169-174 | inside the client list, one step adds the line's record, if any |
| StatusService.ScanUpdates | src/main/java/ru/rs/vpndirector/service/OpenVpnStatusService.java:145-151 | without a routing-table line the scan never stops, the last `Updated,` line sets the update, and the list opens exactly when its title is seen |
| StatusService.ScanCollects | src/main/java/ru/rs/vpndirector/service/OpenVpnStatusService.java:169-174 | inside the client list, every record line is collected in file order |
| StatusService.ScanCollectsNothing | src/main/java/ru/rs/vpndirector/service/OpenVpnStatusService.java:170 | outside the client list nothing is collected |
| StatusService.LastUpdateAppend | src/main/java/ru/rs/vpndirector/service/OpenVpnStatusService.java:149 | the later `Updated,` line wins |
| StatusService.BodyHasNoRoutingTable | src/main/java/ru/rs/vpndirector/service/OpenVpnStatusService.java:160-162 | the part of the log that is scanned holds no routing-table line |
| StatusService.ScanToTitle | src/main/java/ru/rs/vpndirector/service/OpenVpnStatusService.java:154-157 | up to the client-list title the scan has the last update so far and no records, and the list is open |
| StatusService.ScanThroughTitle | src/main/java/ru/rs/vpndirector/service/OpenVpnStatusService.java:142-176 | with a client-list title, the scan gives the last update and the records after the title |
| StatusService.ScanWithoutTitle | src/main/java/ru/rs/vpndirector/service/OpenVpnStatusService.java:142-176 | without a client-list title, the scan gives the last update and no records |
| StatusService.ParseStatusCharacterised | src/main/java/ru/rs/vpndirector/service/OpenVpnStatusService.java:136-179 | the result is the last `Updated,` value before the routing table, and the records between the client-list title and the routing table, in file order |
| StatusService.NoClientListNoConnections | src/main/java/ru/rs/vpndirector/service/OpenVpnStatusService.java:154-157 | without a client-list title before the routing table there are no connections |
| StatusService.StatusInfo.constructor | src/main/java/ru/rs/vpndirector/service/OpenVpnStatusService.java:224-226 | a new `StatusInfo` has no update and no connections |
| StatusService.StatusInfo.SetLastUpdate | src/main/java/ru/rs/vpndirector/service/OpenVpnStatusService.java:232-234 | only the last update changes |
| StatusService.StatusInfo.AddConnection | src/main/java/ru/rs/vpndirector/service/OpenVpnStatusService.java:240-242 | the connection is added at the end, and nothing else changes |
| StatusService.ScanLines | src/main/java/ru/rs/vpndirector/service/OpenVpnStatusService.java:139-178 | the loop fills a fresh `StatusInfo` with exactly what `ParseStatus` gives |
| StatusService.StatusService.constructor | src/main/java/ru/rs/vpndirector/service/OpenVpnStatusService.java:28 | the service reads the given properties and file system |
| StatusService.StatusService.ReadStatusFile | src/main/java/ru/rs/vpndirector/service/OpenVpnStatusService.java:36-54 | returns what `ReadStatus` gives for the disk |
| StatusService.StatusService.ParseStatusFile | src/main/java/ru/rs/vpndirector/service/OpenVpnStatusService.java:136-179 | returns the read's error, or a fresh `StatusInfo` holding `ParseStatus` of the lines read |
| IpManagement.Subnet | src/main/java/ru/rs/vpndirector/controller/IpManagementController.java:36-42 | a subnet exactly when the address splits into 4 dot-separated parts, and then it is the first three parts followed by `.0` |
| IpManagement.SubnetOfDotted | src/main/java/ru/rs/vpndirector/controller/IpManagementController.java:36-42 | four dot-free parts, at least the last one non-empty, split back into themselves, and their subnet is `a.b.c.0` |
| IpManagement.SubnetIsStable | src/main/java/ru/rs/vpndirector/controller/IpManagementController.java:42 | the subnet's own parts are the first three parts of the address and `0`, and its subnet is itself |
| IpManagement.RoutesAreDistinct | src/main/java/ru/rs/vpndirector/controller/IpManagementController.java:41-83 | different subnets give different route lines, and so do different hosts; a subnet route is never a host route |
| IpManagement.AppendAll | src/main/java/ru/rs/vpndirector/controller/IpManagementController.java:53-60 | appending a list of lines either adds them all or stops at the first failed `appendLine` |
| IpManagement.AppendAllStep | src/main/java/ru/rs/vpndirector/controller/IpManagementController.java:56-60 | a failed append stops the sequence with that error; a successful one continues with the rest on the new disk |
| IpManagement.AddIpRefusals | src/main/java/ru/rs/vpndirector/controller/IpManagementController.java:27-68 | an unresolved address, a bad format and a route already present are each refused exactly in their case, with the disk unchanged; the refusal reports the first line that contains the route |
| IpManagement.AddIpAppends | src/main/java/ru/rs/vpndirector/controller/IpManagementController.java:46-60 | a successful `addIp` is the append of the comment line, if any, then the subnet route |
| IpManagement.AppendAllThenRead | src/main/java/ru/rs/vpndirector/controller/IpManagementController.java:53-60 | when the configuration read as plain ASCII lines, after appending plain ASCII lines the file reads as the old lines followed by them |
| IpManagement.SubnetIsAsciiLine | src/main/java/ru/rs/vpndirector/controller/IpManagementController.java:42 | the subnet of an ASCII address without line breaks is ASCII without line breaks |
| IpManagement.RoutesAreAppendable | src/main/java/ru/rs/vpndirector/controller/IpManagementController.java:41-83 | route lines are plain, non-empty ASCII lines |
| IpManagement.CommentLinesAreAppendable | src/main/java/ru/rs/vpndirector/controller/IpManagementController.java:54-57 | the comment line, when there is one, is a plain, non-empty ASCII line |
| IpManagement.AddIpLinesAreAppendable | src/main/java/ru/rs/vpndirector/controller/IpManagementController.java:53-60 | the lines `addIp` appends read back as themselves |
| IpManagement.FieldsAreInfixes | src/main/java/ru/rs/vpndirector/controller/IpManagementController.java:36 | every character of a split piece comes from the string |
| IpManagement.AddIpThenRead | src/main/java/ru/rs/vpndirector/controller/IpManagementController.java:53-60 | when the configuration read as plain ASCII lines, after a successful `addIp` the file reads as the old lines, then the comment line, if any, then the route |
| IpManagement.AddIpTwiceIsRefused | src/main/java/ru/rs/vpndirector/controller/IpManagementController.java:46-51 | when the configuration read as plain ASCII lines, the same request after a successful `addIp` is refused and changes nothing |
| IpManagement.AddIpByDomainRefusals | src/main/java/ru/rs/vpndirector/controller/IpManagementController.java:75-109 | an unresolved domain, a bad format, and an exact or subnet route already present are each refused exactly in their case, with the disk unchanged |
| IpManagement.AddIpByDomainAppends | src/main/java/ru/rs/vpndirector/controller/IpManagementController.java:111-116 | a successful `addIpByDomain` is the append of `#domain`, then the host route |
| IpManagement.DomainLinesAreAppendable | src/main/java/ru/rs/vpndirector/controller/IpManagementController.java:112-116 | the lines `addIpByDomain` appends read back as themselves |
| IpManagement.AddIpByDomainThenRead | src/main/java/ru/rs/vpndirector/controller/IpManagementController.java:111-116 | when the configuration read as plain ASCII lines, after a successful `addIpByDomain` the file reads as the old lines, then `#domain`, then the host route |
| IpManagement.AddIpByDomainTwiceIsRefused | src/main/java/ru/rs/vpndirector/controller/IpManagementController.java:83-90 | when the configuration read as plain ASCII lines, the same domain again is refused and changes nothing |
| IpManagement.IpManagementController.constructor | src/main/java/ru/rs/vpndirector/controller/IpManagementController.java:27 | the controller works through the given configuration service |
| IpManagement.IpManagementController.AppendEach | src/main/java/ru/rs/vpndirector/controller/IpManagementController.java:53-60 | the disk and the outcome are those of `AppendAll` on the old disk |
| IpManagement.IpManagementController.AddIp | src/main/java/ru/rs/vpndirector/controller/IpManagementController.java:27-68 | the disk and the outcome are those of `AddIpEffect` on the old disk |
| IpManagement.IpManagementController.AddIpByDomain | src/main/java/ru/rs/vpndirector/controller/IpManagementController.java:75-125 | the disk and the outcome are those of `AddIpByDomainEffect` on the old disk |
| Certificates.NonSlashRun | src/main/java/ru/rs/vpndirector/controller/CertificateController.java:33 | the longest run of non-`/` characters from `j`, ending at a `/` or the end |
| Certificates.CnValueIsUnique | src/main/java/ru/rs/vpndirector/controller/CertificateController.java:33 | the greedy group after a given `/CN=` is unique |
| Certificates.FindCn | src/main/java/ru/rs/vpndirector/controller/CertificateController.java:74-77 | none exactly when no `/CN=` at or after `from` is followed by a non-`/` character; otherwise the greedy group of the leftmost such match |
| Certificates.ExtractCertificateName | src/main/java/ru/rs/vpndirector/controller/CertificateController.java:72-82 | none exactly when the line has no match; otherwise the greedy group of the leftmost `/CN=` followed by a non-`/` character |
| Certificates.CnOfSubject | src/main/java/ru/rs/vpndirector/controller/CertificateController.java:51-52 | a subject with one `/CN=` and a slash-free name gives that name |
| Certificates.Listing | src/main/java/ru/rs/vpndirector/controller/CertificateController.java:45-56 | at most one entry per line; every name is non-empty and slash-free; `hasFiles` holds exactly when both files exist |
| Certificates.ListingAppend | src/main/java/ru/rs/vpndirector/controller/CertificateController.java:45-57 | the listing goes line by line, in file order |
| Certificates.ListingOfLine | src/main/java/ru/rs/vpndirector/controller/CertificateController.java:45-56 | one line gives the entry of that line |
| Certificates.SkippedLineIsNotListed | src/main/java/ru/rs/vpndirector/controller/CertificateController.java:47-49 | a blank or `#` line adds nothing |
| Certificates.SubjectLineIsListed | src/main/java/ru/rs/vpndirector/controller/CertificateController.java:52-55 | a subject line gives one entry, with its name and whether its files exist |
| Certificates.IndexIsListedByLine | src/main/java/ru/rs/vpndirector/controller/CertificateController.java:40-56 | an `index.txt` written as UTF-8 lines is listed line by line |
| Certificates.ReplaceWhole | src/main/java/ru/rs/vpndirector/controller/CertificateController.java:146-148 | replacing a whole string that is the target gives the replacement |
| Certificates.SubstitutionOrder | src/main/java/ru/rs/vpndirector/controller/CertificateController.java:146-148 | `{key}` is substituted first: a `{cert}` inside the key content is replaced too, and a `{key}` inside the certificate content is not |
| Certificates.TemplateWithoutPlaceholders | src/main/java/ru/rs/vpndirector/controller/CertificateController.java:146-148 | a template without placeholders is returned unchanged |
| Certificates.DownloadFilenames | src/main/java/ru/rs/vpndirector/controller/CertificateController.java:102-154 | the tunnel download is `name_tun.ovpn` and the routes download is `name.ovpn`; the two differ and both start with the name |
| Certificates.GenerateConfig | src/main/java/ru/rs/vpndirector/controller/CertificateController.java:118-168 | not found exactly when the template, the `.key` or the `.crt` is missing |
| Certificates.DownloadOfUtf8Files | src/main/java/ru/rs/vpndirector/controller/CertificateController.java:131-159 | with UTF-8 files, the download is the substituted text in UTF-8, under `name + suffix + ".ovpn"` |
| Certificates.CertificateController.constructor | src/main/java/ru/rs/vpndirector/controller/CertificateController.java:32 | the controller reads the given properties and file system |
| Certificates.CertificateController.CheckCertificateFiles | src/main/java/ru/rs/vpndirector/controller/CertificateController.java:87-97 | true exactly when both `.crt` and `.key` exist |
| Certificates.CertificateController.CertificatesPage | src/main/java/ru/rs/vpndirector/controller/CertificateController.java:35-67 | the loop collects exactly the listing the specification gives for the disk |
| Certificates.CertificateController.GenerateAndDownloadConfig | src/main/java/ru/rs/vpndirector/controller/CertificateController.java:118-168 | the response is `GenerateConfig` of the disk |
| Certificates.CertificateController.DownloadTunnelConfig | src/main/java/ru/rs/vpndirector/controller/CertificateController.java:102-105 | the response is the tunnel download |
| Certificates.CertificateController.DownloadRoutesConfig | src/main/java/ru/rs/vpndirector/controller/CertificateController.java:110-113 | the response is the routes download |

## Left out

- The `file -bi` subprocess is not modelled. Detection takes its first output line as an input (`FileTool`: bytes to an optional line).
- Name resolution (`InetAddress.getByName`) is not modelled. `addIp` takes whether the address resolves as an input, and `addIpByDomain` takes the address the domain resolves to, if any. The textual form `getHostAddress` would produce is not checked.
- The clock is not modelled. `ZonedDateTime.now` is an input, `now`, in whole seconds since the epoch. One `now` serves a whole parse, while the source reads the clock once per connection.
- The time-zone database is not modelled. Europe/Moscow is taken to be UTC+3 at every instant, which holds since 2014 but not for earlier dates.
- StatusTime.ParseDateTime: reads only four-digit years. The `+`-signed years above 9999 that the `yyyy` pattern also accepts are refused.
- Charsets other than the five the source names are not modelled. `Charset.forName` returns "unsupported" for any other name, so a charset the JVM would support falls back like an unsupported one.
- The strict decoder of `Files.readAllLines` is modelled only for these five charsets. Single-byte tables reject only unmapped bytes.
- `Files.createDirectories` in `writeConfigFile` is left out; the model's file system has no directories.
- `Paths.get` normalisation is not modelled. Paths are compared as strings, so `a//b` and `a/b` are different paths, and invalid-path exceptions do not arise.
- A read that fails for a file that exists (a permission error, say) is not modelled: reads never fail. So `generateAndDownloadConfig` never answers with `internalServerError`.
- Java `null` strings are not modelled. Optional parameters are `Option`, and required request parameters are always present.
- Logging, flash attributes and redirect targets are not modelled. Each controller request returns an `Outcome` naming the message the source would flash.
- Concurrency is not modelled. The lost update between two concurrent read-modify-write cycles is outside a sequential model.
- Files.write uses the line separator `\n`, as on Linux.
- ConfigLifecycle.WriteThenReadOverride: the round trip is proved only when the first write succeeds. After a UTF-8 retry, the override charset reads the file back differently.
- ConfigLifecycle.RemoveTwice: requires a non-empty prefix. An empty prefix matches every line, the file becomes empty, and it reads back as one empty line.
- ConfigLifecycle.RemoveTwice: also requires the configuration to read as plain ASCII lines. The file is read in the first charset that decodes it cleanly but written in the detected one, and after the write it is detected afresh. A character the write charset cannot encode is written as `?`, and bytes above 0x7F may read back as other characters. Either can make a kept line match the prefix the second time.
- ConfigLifecycle.ReplaceThenRead: proved only when the configuration reads as plain ASCII lines, for the same reason as RemoveTwice.
- ConfigLifecycle.AppendThenRead: proved only when the configuration reads as plain ASCII lines, for the same reason as RemoveTwice. It also requires the appended line to be non-empty: an empty last line is dropped when the file is read back.
- IpManagement.AppendAllThenRead: proved only when the configuration reads as plain ASCII lines, for the same reason as RemoveTwice.
- IpManagement.AddIpThenRead: proved only when the configuration reads as plain ASCII lines, for the same reason as RemoveTwice.
- IpManagement.AddIpTwiceIsRefused: proved only when the configuration reads as plain ASCII lines, for the same reason as RemoveTwice.
- IpManagement.AddIpByDomainThenRead: proved only when the configuration reads as plain ASCII lines, for the same reason as RemoveTwice.
- IpManagement.AddIpByDomainTwiceIsRefused: proved only when the configuration reads as plain ASCII lines, for the same reason as RemoveTwice.
- Non-ASCII configurations are covered by `WriteThenReadUtf8` and `WriteThenReadOverride` instead, which give the write-then-read round trip for lines free of U+FFFD.
- `CertificateGenerationService`, `OpenVpnServiceController`, `ClientConfigController`, `ConfigEditorController`, `CertificateGenerationController`, `ConnectionController` and the security and web-advice configuration are not part of this model. They are process control, file streaming and framework glue.
