/**
 * The parts of java.lang.String that the core relies on, with Java's edge cases:
 * trim, startsWith, contains/indexOf, literal replace, the three String.split
 * patterns the source uses, BufferedReader's line splitting, and the decimal
 * formatting of %d and %02d.
 */
module JavaText {
  import opened Wrappers

  // ---------------------------------------------------------------- trim

  /** The characters String.trim() strips: every code point up to U+0020. */
  predicate IsTrimSpace(c: char) {
    c <= ' '
  }

  function TrimStart(s: string): string
  {
    if s != [] && IsTrimSpace(s[0]) then TrimStart(s[1..]) else s
  }

  function TrimEnd(s: string): string
  {
    if s != [] && IsTrimSpace(s[|s| - 1]) then TrimEnd(s[..|s| - 1]) else s
  }

  /** TrimStart removes the leading trim spaces and nothing else. */
  lemma {:induction false} TrimStartSpec(s: string)
    ensures var r := TrimStart(s);
      |r| <= |s| && r == s[|s| - |r|..]
      && (forall i :: 0 <= i < |s| - |r| ==> IsTrimSpace(s[i]))
      && (r == [] || !IsTrimSpace(r[0]))
  {
    if s != [] && IsTrimSpace(s[0]) {
      TrimStartSpec(s[1..]);
      var r := TrimStart(s);
      forall i | 0 <= i < |s| - |r| ensures IsTrimSpace(s[i]) {
        if i > 0 {
          assert s[i] == s[1..][i - 1];
        }
      }
    }
  }

  /** TrimEnd removes the trailing trim spaces and nothing else. */
  lemma {:induction false} TrimEndSpec(s: string)
    ensures var r := TrimEnd(s);
      |r| <= |s| && r == s[..|r|]
      && (forall i :: |r| <= i < |s| ==> IsTrimSpace(s[i]))
      && (r == [] || !IsTrimSpace(r[|r| - 1]))
  {
    if s != [] && IsTrimSpace(s[|s| - 1]) {
      TrimEndSpec(s[..|s| - 1]);
      var r := TrimEnd(s);
      forall i | |r| <= i < |s| ensures IsTrimSpace(s[i]) {
        if i < |s| - 1 {
          assert s[i] == s[..|s| - 1][i];
        }
      }
    }
  }

  /** String.trim(): the longest infix that neither starts nor ends with a trim space. */
  function Trim(s: string): (r: string)
  {
    TrimEnd(TrimStart(s))
  }

  /** `s.trim().isEmpty()`: the blank test the source applies to overrides and comments. */
  predicate IsBlank(s: string) {
    Trim(s) == []
  }

  /** A string is blank exactly when every character in it is a trim space. */
  lemma BlankIffAllTrimSpace(s: string)
    ensures IsBlank(s) <==> forall i :: 0 <= i < |s| ==> IsTrimSpace(s[i])
  {
    TrimStartSpec(s);
    var t := TrimStart(s);
    TrimEndSpec(t);
    if t != [] {
      assert s[|s| - |t|] == t[0];
      assert TrimEnd(t) != [];
    }
  }

  /** Trimming keeps an infix whose ends are not trim spaces, so a second trim changes nothing. */
  lemma TrimIdempotent(s: string)
    ensures Trim(Trim(s)) == Trim(s)
  {
    var t := TrimStart(s);
    TrimStartSpec(s);
    TrimEndSpec(t);
    var r := TrimEnd(t);
    assert r == [] || !IsTrimSpace(r[0]) by {
      if r != [] {
        assert r[0] == t[0];
      }
    }
    assert TrimStart(r) == r;
    TrimEndSpec(r);
    assert TrimEnd(r) == r;
  }

  /** Trimming leaves a string unchanged exactly when neither end is a trim space. */
  lemma TrimFixedPoint(s: string)
    ensures Trim(s) == s <==> s == [] || (!IsTrimSpace(s[0]) && !IsTrimSpace(s[|s| - 1]))
  {
    TrimStartSpec(s);
    TrimEndSpec(TrimStart(s));
    if s != [] && !IsTrimSpace(s[0]) && !IsTrimSpace(s[|s| - 1]) {
      assert TrimStart(s) == s;
      TrimEndSpec(s);
    }
  }

  /** The trimmed string is made of characters of the original and ends on neither side in a trim space. */
  lemma TrimIsInfix(s: string)
    ensures var r := Trim(s);
      (forall i :: 0 <= i < |r| ==> r[i] in s)
      && (r == [] || (!IsTrimSpace(r[0]) && !IsTrimSpace(r[|r| - 1])))
  {
    var t := TrimStart(s);
    TrimStartSpec(s);
    TrimEndSpec(t);
    var r := TrimEnd(t);
    forall i | 0 <= i < |r| ensures r[i] in s {
      assert r[i] == t[i] == s[|s| - |t| + i];
    }
    if r != [] {
      assert r[0] == t[0];
    }
  }

  // ---------------------------------------------------------------- search

  /** String.startsWith. */
  predicate StartsWith(s: string, prefix: string) {
    |prefix| <= |s| && s[..|prefix|] == prefix
  }

  /** `t` occurs in `s` at index `i`. */
  predicate OccursAt(s: string, t: string, i: int) {
    0 <= i && i + |t| <= |s| && s[i..i + |t|] == t
  }

  /** String.contains. */
  predicate Contains(s: string, t: string) {
    exists i :: 0 <= i <= |s| - |t| && OccursAt(s, t, i)
  }

  /** String.indexOf(t, from): the leftmost occurrence at or after `from`. */
  function IndexOfFrom(s: string, t: string, from: nat): (r: Option<nat>)
    requires from <= |s|
    ensures r.Some? ==> from <= r.value && OccursAt(s, t, r.value)
    ensures r.Some? ==> forall j :: from <= j < r.value ==> !OccursAt(s, t, j)
    ensures r.None? ==> forall j :: from <= j ==> !OccursAt(s, t, j)
    decreases |s| - from
  {
    if from + |t| > |s| then None
    else if s[from..from + |t|] == t then Some(from)
    else if from == |s| then None
    else IndexOfFrom(s, t, from + 1)
  }

  /** String.indexOf(t). */
  function IndexOf(s: string, t: string): (r: Option<nat>)
    ensures r.Some? <==> Contains(s, t)
    ensures r.Some? ==> OccursAt(s, t, r.value) && forall j :: 0 <= j < r.value ==> !OccursAt(s, t, j)
  {
    IndexOfFrom(s, t, 0)
  }

  /** Searching for one character finds its first occurrence, if there is one. */
  lemma IndexOfChar(s: string, c: char)
    ensures IndexOf(s, [c]).None? <==> c !in s
    ensures IndexOf(s, [c]).Some? ==> var i := IndexOf(s, [c]).value;
      i < |s| && s[i] == c && forall k :: 0 <= k < i ==> s[k] != c
  {
    forall j | 0 <= j < |s|
      ensures OccursAt(s, [c], j) <==> s[j] == c
    {
      assert s[j..j + 1] == [s[j]];
    }
  }

  /** String.replace(target, replacement): every leftmost, non-overlapping occurrence. */
  function Replace(s: string, target: string, replacement: string): string
    requires target != []
    decreases |s|
  {
    match IndexOf(s, target)
    case None => s
    case Some(i) => s[..i] + replacement + Replace(s[i + |target|..], target, replacement)
  }

  /** Replacing a target by itself gives back the original string. */
  lemma {:induction false} ReplaceByItself(s: string, target: string)
    requires target != []
    ensures Replace(s, target, target) == s
    decreases |s|
  {
    match IndexOf(s, target)
    case None =>
    case Some(i) =>
      ReplaceByItself(s[i + |target|..], target);
      assert s == s[..i] + target + s[i + |target|..];
  }

  /** A string without the target is left as it is. */
  lemma ReplaceAbsent(s: string, target: string, replacement: string)
    requires target != [] && !Contains(s, target)
    ensures Replace(s, target, replacement) == s
  {
  }

  // ---------------------------------------------------------------- split

  /** The pieces of `s` between occurrences of `d`, all kept (one more than there are `d`s). */
  function Fields(s: string, d: char): (r: seq<string>)
    ensures |r| >= 1
    ensures forall k :: 0 <= k < |r| ==> d !in r[k]
    decreases |s|
  {
    match IndexOf(s, [d])
    case None =>
      assert d !in s by {
        forall j | 0 <= j < |s| ensures s[j] != d {
          assert !OccursAt(s, [d], j);
          assert s[j..j + 1] == [s[j]];
        }
      }
      [s]
    case Some(i) =>
      assert forall j :: 0 <= j < i ==> s[j] != d by {
        forall j | 0 <= j < i ensures s[j] != d {
          assert !OccursAt(s, [d], j);
          assert s[j..j + 1] == [s[j]];
        }
      }
      [s[..i]] + Fields(s[i + 1..], d)
  }

  /** `pieces` joined with `d` between them (String.join). */
  function JoinWith(pieces: seq<string>, d: char): string
  {
    if |pieces| <= 1 then (if pieces == [] then [] else pieces[0])
    else pieces[0] + [d] + JoinWith(pieces[1..], d)
  }

  /** Splitting at `d` and joining with `d` is the identity. */
  lemma {:induction false} JoinFields(s: string, d: char)
    ensures JoinWith(Fields(s, d), d) == s
    decreases |s|
  {
    match IndexOf(s, [d])
    case None =>
    case Some(i) =>
      JoinFields(s[i + 1..], d);
      assert s[i..i + 1] == [d];
      assert s == s[..i] + [d] + s[i + 1..];
  }

  /** Java's limit-0 split removes every trailing empty string. */
  function DropTrailingEmpty(p: seq<string>): (r: seq<string>)
    ensures |r| <= |p| && r == p[..|r|]
    ensures r == [] || r[|r| - 1] != []
    ensures forall k :: |r| <= k < |p| ==> p[k] == []
  {
    if p != [] && p[|p| - 1] == [] then DropTrailingEmpty(p[..|p| - 1]) else p
  }

  /**
   * `s.split(re)` where `re` matches exactly the single character `d`
   * (`","` and `"\\."` in the source): a string without `d` gives `[s]`,
   * otherwise the pieces with trailing empty strings removed.
   */
  function SplitOnChar(s: string, d: char): (r: seq<string>)
    ensures forall k :: 0 <= k < |r| ==> d !in r[k]
  {
    if d !in s then [s] else DropTrailingEmpty(Fields(s, d))
  }

  /** The first occurrence of `d` after a field free of `d` is the one that ends it. */
  lemma IndexAfterField(f: string, rest: string, d: char)
    requires d !in f
    ensures IndexOf(f + [d] + rest, [d]) == Some(|f|)
  {
    var s := f + [d] + rest;
    IndexOfChar(s, d);
    assert s[|f|] == d;
    forall k | 0 <= k < |f| ensures s[k] != d {
      assert s[k] == f[k];
    }
  }

  /** Splitting a field free of `d` followed by `d` yields the field, then the fields of what follows. */
  lemma FieldsOfField(f: string, rest: string, d: char)
    requires d !in f
    ensures Fields(f + [d] + rest, d) == [f] + Fields(rest, d)
  {
    var s := f + [d] + rest;
    IndexAfterField(f, rest, d);
    assert s[..|f|] == f;
    assert s[|f| + 1..] == rest;
  }

  /** Splitting fields free of `d` joined by `d` gives the fields back. */
  lemma {:induction false} FieldsOfJoin(fields: seq<string>, d: char)
    requires |fields| >= 1
    requires forall k :: 0 <= k < |fields| ==> d !in fields[k]
    ensures Fields(JoinWith(fields, d), d) == fields
    decreases |fields|
  {
    if |fields| == 1 {
      FieldsOfOneField(fields, d);
    } else {
      var tail := fields[1..];
      assert JoinWith(fields, d) == fields[0] + [d] + JoinWith(tail, d);
      FieldsOfField(fields[0], JoinWith(tail, d), d);
      FreeOfTail(fields, d);
      FieldsOfJoin(tail, d);
      HeadAndTail(fields);
    }
  }

  lemma FieldsOfOneField(fields: seq<string>, d: char)
    requires |fields| == 1 && d !in fields[0]
    ensures Fields(JoinWith(fields, d), d) == fields
  {
    IndexOfChar(fields[0], d);
  }

  lemma FreeOfTail(fields: seq<string>, d: char)
    requires fields != [] && forall k :: 0 <= k < |fields| ==> d !in fields[k]
    ensures forall k :: 0 <= k < |fields| - 1 ==> d !in fields[1..][k]
  {
    forall k | 0 <= k < |fields| - 1 ensures d !in fields[1..][k] {
      assert fields[1..][k] == fields[k + 1];
    }
  }

  lemma HeadAndTail(fields: seq<string>)
    requires fields != []
    ensures fields == [fields[0]] + fields[1..]
  {
  }

  /** Empty strings at the end are dropped, and nothing before them. */
  lemma {:induction false} DropTrailingEmpties(fields: seq<string>, empties: seq<string>)
    requires fields != [] && fields[|fields| - 1] != []
    requires forall k :: 0 <= k < |empties| ==> empties[k] == []
    ensures DropTrailingEmpty(fields + empties) == fields
    decreases |empties|
  {
    if empties != [] {
      assert (fields + empties)[..|fields + empties| - 1] == fields + empties[..|empties| - 1];
      DropTrailingEmpties(fields, empties[..|empties| - 1]);
    } else {
      assert fields + empties == fields;
    }
  }

  /**
   * Joining fields free of `d` (the last one non-empty) with any number of
   * empty fields after them, and splitting the result at `d`, gives the fields.
   */
  lemma SplitOfJoin(fields: seq<string>, empties: seq<string>, d: char)
    requires fields != [] && fields[|fields| - 1] != []
    requires forall k :: 0 <= k < |fields| ==> d !in fields[k]
    requires forall k :: 0 <= k < |empties| ==> empties[k] == []
    ensures SplitOnChar(JoinWith(fields + empties, d), d) == fields
  {
    var all := fields + empties;
    assert forall k :: 0 <= k < |all| ==> d !in all[k] by {
      forall k | 0 <= k < |all| ensures d !in all[k] {
        if k >= |fields| {
          assert all[k] == empties[k - |fields|];
        }
      }
    }
    var line := JoinWith(all, d);
    FieldsOfJoin(all, d);
    DropTrailingEmpties(fields, empties);
    if |all| == 1 {
      assert all == fields;
      assert SplitOnChar(line, d) == fields by {
        assert DropTrailingEmpty(Fields(line, d)) == fields;
      }
    } else {
      assert line == all[0] + [d] + JoinWith(all[1..], d);
      assert line[|all[0]|] == d;
    }
  }

  /** A line piece loses one carriage return before the newline that ends it. */
  function DropCarriageReturn(p: string): (r: string)
  {
    if p != [] && p[|p| - 1] == '\r' then p[..|p| - 1] else p
  }

  /** The pieces of `s` between matches of `\r?\n`, all kept. */
  function LinePieces(s: string): (r: seq<string>)
    ensures |r| >= 1
    decreases |s|
  {
    match IndexOf(s, "\n")
    case None => [s]
    case Some(i) => [DropCarriageReturn(s[..i])] + LinePieces(s[i + 1..])
  }

  /** `s.split("\\r?\\n")`: `[s]` when there is no newline, else the pieces without trailing empties. */
  function SplitLines(s: string): seq<string>
  {
    if '\n' !in s then [s] else DropTrailingEmpty(LinePieces(s))
  }

  /** The characters `\s` matches in a Java regular expression. */
  predicate IsRegexSpace(c: char) {
    c == ' ' || c == '\t' || c == '\n' || c == '\U{000B}' || c == '\U{000C}' || c == '\r'
  }

  /** Index of the first `\s` character at or after `from`, or `|s|`. */
  function FirstSpace(s: string, from: nat): (r: nat)
    requires from <= |s|
    ensures from <= r <= |s|
    ensures forall k :: from <= k < r ==> !IsRegexSpace(s[k])
    ensures r < |s| ==> IsRegexSpace(s[r])
    decreases |s| - from
  {
    if from == |s| || IsRegexSpace(s[from]) then from else FirstSpace(s, from + 1)
  }

  /** Index just past the run of `\s` characters that starts at `from`. */
  function EndOfSpaces(s: string, from: nat): (r: nat)
    requires from <= |s|
    ensures from <= r <= |s|
    ensures forall k :: from <= k < r ==> IsRegexSpace(s[k])
    ensures r < |s| ==> !IsRegexSpace(s[r])
    decreases |s| - from
  {
    if from == |s| || !IsRegexSpace(s[from]) then from else EndOfSpaces(s, from + 1)
  }

  /**
   * `s.split("\\s+", 2)`: `[s]` when `s` has no `\s` character, else the text
   * before the first whitespace run and everything after that run.
   */
  function SplitOnWhitespaceOnce(s: string): (r: seq<string>)
    ensures 1 <= |r| <= 2
    ensures |r| == 2 <==> exists k :: 0 <= k < |s| && IsRegexSpace(s[k])
  {
    var i := FirstSpace(s, 0);
    if i == |s| then [s] else [s[..i], s[EndOfSpaces(s, i)..]]
  }

  /** First index of `\n` or `\r`, or `|s|`. */
  function FirstLineBreak(s: string): (r: nat)
    ensures r <= |s|
    ensures forall k :: 0 <= k < r ==> s[k] != '\n' && s[k] != '\r'
    ensures r < |s| ==> s[r] == '\n' || s[r] == '\r'
  {
    if s == [] || s[0] == '\n' || s[0] == '\r' then 0 else 1 + FirstLineBreak(s[1..])
  }

  /**
   * The lines BufferedReader.readLine returns one by one (Files.readAllLines):
   * `\n`, `\r` and `\r\n` end a line, and a final line needs no terminator.
   */
  function ReaderLines(s: string): seq<string>
    decreases |s|
  {
    if s == [] then []
    else
      var i := FirstLineBreak(s);
      if i == |s| then [s]
      else
        var next := if s[i] == '\r' && i + 1 < |s| && s[i + 1] == '\n' then i + 2 else i + 1;
        [s[..i]] + ReaderLines(s[next..])
  }

  /** Lines each ended by a newline. */
  function TerminatedText(lines: seq<string>): string {
    if lines == [] then [] else lines[0] + "\n" + TerminatedText(lines[1..])
  }

  /** A line neither `\n` nor `\r` would end. */
  predicate HasNoLineBreak(line: string) {
    '\n' !in line && '\r' !in line
  }

  /** The first line break of a line followed by a newline is that newline. */
  lemma FirstLineBreakOfLine(line: string, rest: string)
    requires HasNoLineBreak(line)
    ensures FirstLineBreak(line + "\n" + rest) == |line|
  {
    var s := line + "\n" + rest;
    assert forall k :: 0 <= k < |line| ==> s[k] == line[k];
    assert s[|line|] == '\n';
  }

  /** Reading back newline-terminated lines gives the lines. */
  lemma {:induction false} ReaderLinesOfTerminated(lines: seq<string>)
    requires forall k :: 0 <= k < |lines| ==> HasNoLineBreak(lines[k])
    ensures ReaderLines(TerminatedText(lines)) == lines
  {
    if lines != [] {
      var s := TerminatedText(lines);
      FirstLineBreakOfLine(lines[0], TerminatedText(lines[1..]));
      assert s[|lines[0]|] == '\n';
      assert s[..|lines[0]|] == lines[0];
      assert s[|lines[0]| + 1..] == TerminatedText(lines[1..]);
      ReaderLinesOfTerminated(lines[1..]);
    }
  }

  // ---------------------------------------------------------------- case and digits

  /** ASCII lower-casing, as Charset.forName compares names. */
  function ToLowerAscii(s: string): (r: string)
    ensures |r| == |s|
  {
    if s == [] then [] else [LowerAscii(s[0])] + ToLowerAscii(s[1..])
  }

  function LowerAscii(c: char): char {
    if 'A' <= c <= 'Z' then (c as int + 32) as char else c
  }

  /** Text with no upper-case ASCII letter is its own lower-case form. */
  lemma {:induction false} ToLowerAsciiOfLower(s: string)
    requires forall i :: 0 <= i < |s| ==> !('A' <= s[i] <= 'Z')
    ensures ToLowerAscii(s) == s
  {
    if s != [] {
      ToLowerAsciiOfLower(s[1..]);
    }
  }

  lemma {:induction false} ToLowerAsciiConcat(a: string, b: string)
    ensures ToLowerAscii(a + b) == ToLowerAscii(a) + ToLowerAscii(b)
  {
    if a != [] {
      assert (a + b)[0] == a[0];
      assert (a + b)[1..] == a[1..] + b;
      ToLowerAsciiConcat(a[1..], b);
    } else {
      assert a + b == b;
    }
  }

  predicate IsDigit(c: char) {
    '0' <= c <= '9'
  }

  function DigitChar(d: nat): char
    requires d < 10
  {
    ('0' as int + d) as char
  }

  /** The decimal digits of `n`, without leading zeros. */
  function NatToDecimal(n: nat): (r: string)
    ensures |r| >= 1
    ensures forall k :: 0 <= k < |r| ==> IsDigit(r[k])
  {
    if n < 10 then [DigitChar(n)] else NatToDecimal(n / 10) + [DigitChar(n % 10)]
  }

  /** `%d`: a minus sign for negative values, then the digits. */
  function IntToDecimal(n: int): string
  {
    if n < 0 then "-" + NatToDecimal(-n) else NatToDecimal(n)
  }

  /** `%02d`: zero-padded to width two; a negative value is already two characters wide. */
  function ZeroPad2(n: int): (r: string)
    ensures |r| >= 2
    ensures 0 <= n ==> (forall k :: 0 <= k < |r| ==> IsDigit(r[k])) && DecimalValue(r) == n
    ensures n < 0 ==> r[0] == '-' && (forall k :: 1 <= k < |r| ==> IsDigit(r[k])) && DecimalValue(r[1..]) == -n
  {
    if 0 <= n < 10 then
      assert DecimalValue("0" + [DigitChar(n)]) == 10 * DecimalValue("0") + n;
      "0" + NatToDecimal(n)
    else if n < 0 then
      DecimalRoundTrip(-n);
      assert ("-" + NatToDecimal(-n))[1..] == NatToDecimal(-n);
      "-" + NatToDecimal(-n)
    else
      DecimalRoundTrip(n);
      IntToDecimal(n)
  }

  /** The value of a string of decimal digits. */
  function DecimalValue(s: string): (r: nat)
    requires forall k :: 0 <= k < |s| ==> IsDigit(s[k])
  {
    if s == [] then 0
    else
      assert IsDigit(s[|s| - 1]);
      10 * DecimalValue(s[..|s| - 1]) + (s[|s| - 1] as int - '0' as int)
  }

  /** Reading back what NatToDecimal prints gives the number. */
  lemma {:induction false} DecimalRoundTrip(n: nat)
    ensures DecimalValue(NatToDecimal(n)) == n
  {
    if n >= 10 {
      DecimalRoundTrip(n / 10);
      var s := NatToDecimal(n);
      assert s[..|s| - 1] == NatToDecimal(n / 10);
    }
  }
}
