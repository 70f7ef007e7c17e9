/**
 * The configuration file as a list of lines in memory: the edits the engine
 * makes to it, the lookups it answers, how lines are made safe for a charset,
 * and how the list becomes text and back.
 */
module ConfigDocument {
  import opened Wrappers
  import opened JavaText
  import opened CharsetNames
  import opened Charsets

  // ---------------------------------------------------------------- matching by prefix

  /** `line.trim().startsWith(prefix)`: the test replace and remove apply to a line. */
  predicate MatchesPrefix(line: string, prefix: string) {
    StartsWith(Trim(line), prefix)
  }

  /** The index of the first line that matches the prefix. */
  function FirstMatch(lines: seq<string>, prefix: string): (r: Option<nat>)
    ensures r.Some? ==> r.value < |lines| && MatchesPrefix(lines[r.value], prefix)
    ensures r.Some? ==> forall k :: 0 <= k < r.value ==> !MatchesPrefix(lines[k], prefix)
    ensures r.None? <==> forall k :: 0 <= k < |lines| ==> !MatchesPrefix(lines[k], prefix)
  {
    if lines == [] then None
    else if MatchesPrefix(lines[0], prefix) then Some(0)
    else match FirstMatch(lines[1..], prefix)
      case None => None
      case Some(i) => Some(i + 1)
  }

  /**
   * replaceLineByPrefix on the list in memory: the first matching line becomes
   * `newValue` as given; `None` when no line matches.
   */
  function ReplaceFirst(lines: seq<string>, prefix: string, newValue: string): (r: Option<seq<string>>)
  {
    match FirstMatch(lines, prefix)
    case None => None
    case Some(i) => Some(lines[i := newValue])
  }

  /**
   * A replacement happens exactly when some line matches; it changes only the
   * first matching line, to `newValue`, and keeps the length and every other line.
   */
  lemma ReplaceFirstChangesOnlyFirstMatch(lines: seq<string>, prefix: string, newValue: string)
    ensures ReplaceFirst(lines, prefix, newValue).Some? <==> exists k :: 0 <= k < |lines| && MatchesPrefix(lines[k], prefix)
    ensures ReplaceFirst(lines, prefix, newValue).Some? ==>
      var r := ReplaceFirst(lines, prefix, newValue).value;
      |r| == |lines|
      && (exists i :: 0 <= i < |lines| && MatchesPrefix(lines[i], prefix) && r[i] == newValue
            && (forall k :: 0 <= k < i ==> !MatchesPrefix(lines[k], prefix))
            && (forall k :: 0 <= k < |lines| && k != i ==> r[k] == lines[k]))
  {
    var m := FirstMatch(lines, prefix);
    if m.None? {
      assert forall k :: 0 <= k < |lines| ==> !MatchesPrefix(lines[k], prefix);
    }
  }

  /** removeLineByPrefix on the list in memory: the lines that do not match, in their order. */
  function RemoveMatching(lines: seq<string>, prefix: string): (r: seq<string>)
    ensures |r| <= |lines|
  {
    if lines == [] then []
    else (if MatchesPrefix(lines[0], prefix) then [] else [lines[0]]) + RemoveMatching(lines[1..], prefix)
  }

  /** Removal works line by line: it distributes over concatenation, so the kept lines stay in order. */
  lemma {:induction false} RemoveMatchingConcat(a: seq<string>, b: seq<string>, prefix: string)
    ensures RemoveMatching(a + b, prefix) == RemoveMatching(a, prefix) + RemoveMatching(b, prefix)
  {
    if a == [] {
      assert a + b == b;
    } else {
      var r := RemoveMatching(a[1..] + b, prefix);
      assert (a + b)[0] == a[0];
      assert (a + b)[1..] == a[1..] + b;
      RemoveMatchingConcat(a[1..], b, prefix);
      assert RemoveMatching(a + b, prefix) == (if MatchesPrefix(a[0], prefix) then [] else [a[0]]) + r;
    }
  }

  /** The kept lines are exactly the non-matching ones, each kept once. */
  lemma {:induction false} RemoveMatchingKeepsNonMatching(lines: seq<string>, prefix: string)
    ensures forall k :: 0 <= k < |RemoveMatching(lines, prefix)| ==> !MatchesPrefix(RemoveMatching(lines, prefix)[k], prefix)
    ensures forall k :: 0 <= k < |lines| && !MatchesPrefix(lines[k], prefix) ==> lines[k] in RemoveMatching(lines, prefix)
    ensures |RemoveMatching(lines, prefix)| < |lines| <==> exists k :: 0 <= k < |lines| && MatchesPrefix(lines[k], prefix)
  {
    if lines != [] {
      RemoveMatchingKeepsNonMatching(lines[1..], prefix);
      var rest := RemoveMatching(lines[1..], prefix);
      assert forall k :: 1 <= k < |lines| ==> lines[k] == lines[1..][k - 1];
      if !MatchesPrefix(lines[0], prefix) {
        assert RemoveMatching(lines, prefix) == [lines[0]] + rest;
        if exists k :: 0 <= k < |lines| && MatchesPrefix(lines[k], prefix) {
          var k :| 0 <= k < |lines| && MatchesPrefix(lines[k], prefix);
          assert MatchesPrefix(lines[1..][k - 1], prefix);
        }
      }
    }
  }

  /** Every kept line is one of the original lines. */
  lemma {:induction false} RemoveMatchingKeepsLinesOf(lines: seq<string>, prefix: string)
    ensures forall k :: 0 <= k < |RemoveMatching(lines, prefix)| ==> RemoveMatching(lines, prefix)[k] in lines
  {
    if lines != [] {
      RemoveMatchingKeepsLinesOf(lines[1..], prefix);
      var rest := RemoveMatching(lines[1..], prefix);
      assert forall x :: x in lines[1..] ==> x in lines;
      assert forall k :: 0 <= k < |rest| ==> rest[k] in lines;
    }
  }

  /**
   * What is read back after a removal with a non-empty prefix still has no
   * matching line: reading drops only empty lines, or gives one empty line,
   * and an empty line never starts with a non-empty prefix.
   */
  lemma ReadBackOfRemoved(lines: seq<string>, prefix: string)
    requires prefix != []
    ensures forall k :: 0 <= k < |ReadBack(RemoveMatching(lines, prefix))| ==> !MatchesPrefix(ReadBack(RemoveMatching(lines, prefix))[k], prefix)
  {
    RemoveMatchingKeepsNonMatching(lines, prefix);
    assert Trim("") == "";
  }

  /** A second removal with the same prefix finds nothing and changes nothing. */
  lemma RemoveMatchingIdempotent(lines: seq<string>, prefix: string)
    ensures RemoveMatching(RemoveMatching(lines, prefix), prefix) == RemoveMatching(lines, prefix)
  {
    var r := RemoveMatching(lines, prefix);
    RemoveMatchingKeepsNonMatching(lines, prefix);
    RemoveMatchingKeepsNonMatching(r, prefix);
    NothingToRemove(r, prefix);
  }

  /** Without a matching line, removal returns the list as it was. */
  lemma {:induction false} NothingToRemove(lines: seq<string>, prefix: string)
    requires forall k :: 0 <= k < |lines| ==> !MatchesPrefix(lines[k], prefix)
    ensures RemoveMatching(lines, prefix) == lines
  {
    if lines != [] {
      NothingToRemove(lines[1..], prefix);
    }
  }

  // ---------------------------------------------------------------- lookups

  /** findLineContaining on the list: the first line, untrimmed, that contains the text. */
  function FindContaining(lines: seq<string>, text: string): (r: Option<string>)
    ensures r.None? <==> forall k :: 0 <= k < |lines| ==> !Contains(lines[k], text)
    ensures r.Some? ==>
      (exists i :: 0 <= i < |lines| && lines[i] == r.value && Contains(lines[i], text)
         && forall k :: 0 <= k < i ==> !Contains(lines[k], text))
  {
    if lines == [] then None
    else if Contains(lines[0], text) then Some(lines[0])
    else
      var r := FindContaining(lines[1..], text);
      assert forall k :: 1 <= k < |lines| ==> lines[k] == lines[1..][k - 1];
      r
  }

  /** A line from which getConfigValue takes a value: its trimmed text starts with the key and has a whitespace run. */
  predicate HasValue(line: string, key: string) {
    StartsWith(Trim(line), key) && |SplitOnWhitespaceOnce(Trim(line))| == 2
  }

  /** Everything after the first whitespace run of the trimmed line, trimmed. */
  function ValueOf(line: string): string
    requires |SplitOnWhitespaceOnce(Trim(line))| == 2
  {
    Trim(SplitOnWhitespaceOnce(Trim(line))[1])
  }

  /** Index of the first line at or after `from` that has a value for `key`, or the number of lines. */
  function FirstWithValue(lines: seq<string>, key: string, from: nat): (r: nat)
    requires from <= |lines|
    ensures from <= r <= |lines|
    ensures forall k :: from <= k < r ==> !HasValue(lines[k], key)
    ensures r < |lines| ==> HasValue(lines[r], key)
    decreases |lines| - from
  {
    if from == |lines| || HasValue(lines[from], key) then from
    else FirstWithValue(lines, key, from + 1)
  }

  /**
   * getConfigValue on the list: the value of the first line that has one for
   * `key`; matching lines without whitespace are passed over.
   */
  function ConfigValue(lines: seq<string>, key: string): (r: Option<string>)
    ensures r.None? <==> forall k :: 0 <= k < |lines| ==> !HasValue(lines[k], key)
    ensures r.Some? ==>
      (exists i :: 0 <= i < |lines| && HasValue(lines[i], key) && r.value == ValueOf(lines[i])
         && forall k :: 0 <= k < i ==> !HasValue(lines[k], key))
  {
    var i := FirstWithValue(lines, key, 0);
    if i < |lines| then Some(ValueOf(lines[i])) else None
  }

  /** No character that `\s` or trim would treat as space. */
  predicate IsWord(s: string) {
    forall i :: 0 <= i < |s| ==> !IsTrimSpace(s[i])
  }

  /**
   * The value of `key value` is the whole rest of the line, spaces included,
   * not just its first token.
   */
  lemma ValueIsRestOfLine(key: string, value: string)
    requires key != [] && IsWord(key)
    requires value != [] && !IsTrimSpace(value[0]) && !IsTrimSpace(value[|value| - 1])
    ensures ConfigValue([key + " " + value], key) == Some(value)
  {
    var line := key + " " + value;
    assert TrimStart(line) == line;
    assert TrimEnd(line) == line;
    assert Trim(line) == line;
    assert StartsWith(line, key) by { assert line[..|key|] == key; }
    assert forall k :: 0 <= k < |key| ==> line[k] == key[k] && !IsRegexSpace(line[k]);
    var i := FirstSpace(line, 0);
    assert IsRegexSpace(line[|key|]);
    assert i == |key|;
    assert !IsRegexSpace(line[|key| + 1]) by { assert line[|key| + 1] == value[0]; }
    assert EndOfSpaces(line, i) == |key| + 1;
    assert line[|key| + 1..] == value;
    assert TrimStart(value) == value;
    assert TrimEnd(value) == value;
  }

  // ---------------------------------------------------------------- the editor's loops

  /** replaceLineByPrefix's indexed loop: set the first matching line to `newValue` and stop. */
  method ReplaceFirstInPlace(lines: seq<string>, prefix: string, newValue: string) returns (edited: seq<string>, replaced: bool)
    ensures replaced <==> ReplaceFirst(lines, prefix, newValue).Some?
    ensures replaced ==> edited == ReplaceFirst(lines, prefix, newValue).value
    ensures !replaced ==> edited == lines
  {
    edited, replaced := lines, false;
    var i := 0;
    while i < |edited|
      invariant 0 <= i <= |lines| && edited == lines
      invariant forall k :: 0 <= k < i ==> !MatchesPrefix(lines[k], prefix)
    {
      var line := Trim(edited[i]);
      if StartsWith(line, prefix) {
        edited := edited[i := newValue];
        replaced := true;
        assert FirstMatch(lines, prefix) == Some(i);
        return;
      }
      i := i + 1;
    }
  }

  /** `removeIf(line -> line.trim().startsWith(prefix))`: keep the other lines, in order. */
  method RemoveIf(lines: seq<string>, prefix: string) returns (kept: seq<string>)
    ensures kept == RemoveMatching(lines, prefix)
  {
    kept := [];
    for i := 0 to |lines|
      invariant kept == RemoveMatching(lines[..i], prefix)
    {
      RemoveMatchingConcat(lines[..i], [lines[i]], prefix);
      assert lines[..i + 1] == lines[..i] + [lines[i]];
      if !StartsWith(Trim(lines[i]), prefix) {
        kept := kept + [lines[i]];
      }
    }
    assert lines[..|lines|] == lines;
  }

  /** getConfigValue's loop over the lines. */
  method ValueInLines(lines: seq<string>, key: string) returns (r: Option<string>)
    ensures r == ConfigValue(lines, key)
  {
    for i := 0 to |lines|
      invariant forall k :: 0 <= k < i ==> !HasValue(lines[k], key)
    {
      var trimmed := Trim(lines[i]);
      if StartsWith(trimmed, key) {
        var parts := SplitOnWhitespaceOnce(trimmed);
        if |parts| > 1 {
          return Some(Trim(parts[1]));
        }
      }
    }
    return None;
  }

  /** findLineContaining's loop over the lines. */
  method FirstContaining(lines: seq<string>, searchText: string) returns (r: Option<string>)
    ensures r == FindContaining(lines, searchText)
  {
    for i := 0 to |lines|
      invariant forall k :: 0 <= k < i ==> !Contains(lines[k], searchText)
    {
      if Contains(lines[i], searchText) {
        assert FindContaining(lines, searchText) == Some(lines[i]);
        return Some(lines[i]);
      }
    }
    return None;
  }

  // ---------------------------------------------------------------- writing lines

  /** `line.replaceAll("[^\\x00-\\x7F]", "?")`: every character above U+007F becomes `?`. */
  function MaskNonAscii(line: string): (r: string)
    ensures |r| == |line| && IsAscii(r)
    ensures forall i :: 0 <= i < |line| && line[i] < 128 as char ==> r[i] == line[i]
    ensures forall i :: 0 <= i < |line| && line[i] >= 128 as char ==> r[i] == '?'
  {
    seq(|line|, i requires 0 <= i < |line| => if line[i] < 128 as char then line[i] else '?')
  }

  /** The line as it is written: unchanged if the charset can encode it, masked otherwise. */
  function SafeLine(cs: Charset, line: string): string
  {
    if CanEncode(cs, line) then line else MaskNonAscii(line)
  }

  /**
   * A safe line can always be encoded, has as many characters as the original,
   * and keeps every ASCII character in place.
   */
  lemma SafeLineProperties(cs: Charset, line: string)
    ensures CanEncode(cs, SafeLine(cs, line))
    ensures |SafeLine(cs, line)| == |line|
    ensures forall i :: 0 <= i < |line| && line[i] < 128 as char ==> SafeLine(cs, line)[i] == line[i]
    ensures CanEncode(cs, line) ==> SafeLine(cs, line) == line
  {
    if !CanEncode(cs, line) {
      AsciiEncodesIdentically(cs, MaskNonAscii(line));
    }
  }

  /** The text Files.write produces from lines: each line followed by the line separator `\n`. */
  function LinesText(lines: seq<string>): string
  {
    if lines == [] then [] else lines[0] + "\n" + LinesText(lines[1..])
  }

  /** Encodability is a property of each character, so it holds of a concatenation of encodable parts. */
  lemma CanEncodeConcat(cs: Charset, a: string, b: string)
    requires CanEncode(cs, a) && CanEncode(cs, b)
    ensures CanEncode(cs, a + b)
  {
    if cs != Utf8 {
      forall i | 0 <= i < |a + b| ensures EncodeByte(cs, (a + b)[i]).Some? {
        if i < |a| {
          assert (a + b)[i] == a[i];
        } else {
          assert (a + b)[i] == b[i - |a|];
        }
      }
    }
  }

  /** Lines a charset can each encode make a text it can encode. */
  lemma {:induction false} LinesTextEncodable(cs: Charset, lines: seq<string>)
    requires forall k :: 0 <= k < |lines| ==> CanEncode(cs, lines[k])
    ensures CanEncode(cs, LinesText(lines))
  {
    if lines != [] {
      LinesTextEncodable(cs, lines[1..]);
      AsciiEncodesIdentically(cs, "\n");
      CanEncodeConcat(cs, lines[0], "\n");
      CanEncodeConcat(cs, lines[0] + "\n", LinesText(lines[1..]));
    }
  }

  /** The lines as writeConfigFile's loop makes them safe. */
  function SafeLines(cs: Charset, lines: seq<string>): (r: seq<string>)
    ensures |r| == |lines|
    ensures forall k :: 0 <= k < |lines| ==> r[k] == SafeLine(cs, lines[k])
  {
    seq(|lines|, k requires 0 <= k < |lines| => SafeLine(cs, lines[k]))
  }

  /** The safe text can always be encoded, so the primary write never meets an unmappable character. */
  lemma SafeTextEncodable(cs: Charset, lines: seq<string>)
    ensures CanEncode(cs, LinesText(SafeLines(cs, lines)))
  {
    var safe := SafeLines(cs, lines);
    forall k | 0 <= k < |safe| ensures CanEncode(cs, safe[k]) {
      SafeLineProperties(cs, lines[k]);
    }
    LinesTextEncodable(cs, safe);
  }

  // ---------------------------------------------------------------- reading lines back

  /** A character other than the newline that no line holds is not in the text. */
  lemma {:induction false} LinesTextAvoids(lines: seq<string>, c: char)
    requires c != '\n'
    requires forall k :: 0 <= k < |lines| ==> c !in lines[k]
    ensures c !in LinesText(lines)
  {
    if lines != [] {
      LinesTextAvoids(lines[1..], c);
      assert LinesText(lines) == lines[0] + "\n" + LinesText(lines[1..]);
    }
  }

  /** ASCII lines make an ASCII text. */
  lemma {:induction false} LinesTextAscii(lines: seq<string>)
    requires forall k :: 0 <= k < |lines| ==> IsAscii(lines[k])
    ensures IsAscii(LinesText(lines))
  {
    if lines != [] {
      LinesTextAscii(lines[1..]);
      var t := LinesText(lines);
      var a := lines[0] + "\n";
      assert t == a + LinesText(lines[1..]);
      forall i | 0 <= i < |t| ensures t[i] < 128 as char {
        if i >= |a| {
          assert t[i] == LinesText(lines[1..])[i - |a|];
        } else if i < |lines[0]| {
          assert t[i] == lines[0][i];
        }
      }
    }
  }

  /** The lines `\r?\n` splitting yields hold only characters of the text. */
  lemma {:induction false} LinePiecesAvoid(s: string, c: char)
    requires c !in s
    ensures forall k :: 0 <= k < |LinePieces(s)| ==> c !in LinePieces(s)[k]
    decreases |s|
  {
    match IndexOf(s, "\n")
    case None =>
    case Some(i) =>
      LinePiecesAvoid(s[i + 1..], c);
      assert c !in s[..i];
      var rest := LinePieces(s[i + 1..]);
      assert LinePieces(s) == [DropCarriageReturn(s[..i])] + rest;
      assert forall k :: 1 <= k < |LinePieces(s)| ==> LinePieces(s)[k] == rest[k - 1];
  }

  /** A character absent from the text is absent from every line read from it. */
  lemma SplitLinesAvoid(s: string, c: char)
    requires c !in s
    ensures forall k :: 0 <= k < |SplitLines(s)| ==> c !in SplitLines(s)[k]
  {
    if '\n' in s {
      LinePiecesAvoid(s, c);
    }
  }

  /** A line that can be written and read back as itself: no newline in it, no carriage return at its end. */
  predicate IsPlainLine(line: string) {
    '\n' !in line && (line == [] || line[|line| - 1] != '\r')
  }

  /** What reading gives for text written from `lines`: trailing empty lines are lost, and an empty list reads as one empty line. */
  function ReadBack(lines: seq<string>): seq<string> {
    if lines == [] then [""] else DropTrailingEmpty(lines)
  }

  /** The first newline of a line followed by a newline is the one after it. */
  lemma NewlineAfterLine(line: string, rest: string)
    requires '\n' !in line
    ensures IndexOf(line + "\n" + rest, "\n") == Some(|line|)
  {
    var s := line + "\n" + rest;
    IndexOfChar(s, '\n');
    assert s[|line|] == '\n';
    forall k | 0 <= k < |line| ensures s[k] != '\n' {
      assert s[k] == line[k];
    }
  }

  /** Splitting a plain line followed by a newline yields that line, then the pieces of what follows. */
  lemma LinePiecesOfLine(line: string, rest: string)
    requires IsPlainLine(line)
    ensures LinePieces(line + "\n" + rest) == [line] + LinePieces(rest)
  {
    var s := line + "\n" + rest;
    NewlineAfterLine(line, rest);
    assert s[..|line|] == line;
    assert s[|line| + 1..] == rest;
  }

  lemma {:induction false} LinePiecesOfText(lines: seq<string>)
    requires forall k :: 0 <= k < |lines| ==> IsPlainLine(lines[k])
    ensures LinePieces(LinesText(lines)) == lines + [""]
  {
    if lines != [] {
      var tail := lines[1..];
      assert LinesText(lines) == lines[0] + "\n" + LinesText(tail);
      LinePiecesOfLine(lines[0], LinesText(tail));
      PlainOfTail(lines);
      LinePiecesOfText(tail);
      PaddedHeadAndTail(lines);
    }
  }

  lemma PlainOfTail(lines: seq<string>)
    requires lines != [] && forall k :: 0 <= k < |lines| ==> IsPlainLine(lines[k])
    ensures forall k :: 0 <= k < |lines| - 1 ==> IsPlainLine(lines[1..][k])
  {
    forall k | 0 <= k < |lines| - 1 ensures IsPlainLine(lines[1..][k]) {
      assert lines[1..][k] == lines[k + 1];
    }
  }

  lemma PaddedHeadAndTail(lines: seq<string>)
    requires lines != []
    ensures lines + [""] == [lines[0]] + (lines[1..] + [""])
  {
  }

  lemma DropTrailingEmptyOfPadded(lines: seq<string>)
    ensures DropTrailingEmpty(lines + [""]) == DropTrailingEmpty(lines)
  {
    assert (lines + [""])[..|lines|] == lines;
  }

  /** Splitting the written text at newlines gives the lines back, up to the trailing empty ones. */
  lemma SplitLinesOfText(lines: seq<string>)
    requires forall k :: 0 <= k < |lines| ==> IsPlainLine(lines[k])
    ensures SplitLines(LinesText(lines)) == ReadBack(lines)
  {
    LinePiecesOfText(lines);
    if lines != [] {
      var s := LinesText(lines);
      assert s[|lines[0]|] == '\n';
      DropTrailingEmptyOfPadded(lines);
    }
  }

  /** Appending a non-empty line to what was read gives a list that reads back as itself. */
  lemma ReadBackOfAppended(lines: seq<string>, line: string)
    requires line != []
    ensures ReadBack(lines + [line]) == lines + [line]
  {
  }
}
