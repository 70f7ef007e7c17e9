/**
 * How the configuration engine guesses the charset of the configuration file:
 * an explicit override, else a UTF-8 round trip, else a score among the three
 * Cyrillic code pages, else the `file` utility, else Windows-1251.
 */
module EncodingDetection {
  import opened Wrappers
  import opened JavaText
  import opened CharsetNames
  import opened Charsets

  /** The `file -bi` utility: the first line it prints for a file with these bytes, if it prints one. */
  type FileTool = seq<byte> -> Option<string>

  // ---------------------------------------------------------------- the UTF-8 check

  /** The bytes decode as UTF-8 without any U+FFFD, and encoding the text again gives the same bytes. */
  predicate IsValidUtf8(b: seq<byte>) {
    var s := Utf8Decode(b);
    Utf8Encode(s) == b && Replacement !in s
  }

  /** Any text without U+FFFD, written as UTF-8, passes the check. */
  lemma EncodedTextIsValidUtf8(s: string)
    requires Replacement !in s
    ensures IsValidUtf8(Utf8Encode(s))
  {
    Utf8RoundTrip(s);
  }

  /** Bytes that pass the check are well formed: a strict UTF-8 decoder accepts them. */
  lemma ValidUtf8IsWellFormed(b: seq<byte>)
    requires IsValidUtf8(b)
    ensures Utf8WellFormed(b)
  {
    CleanDecodeIsWellFormed(b);
  }

  // ---------------------------------------------------------------- scoring the Cyrillic code pages

  /** U+0400..U+04FF; the source's three ranges overlap into exactly this block. */
  predicate IsCyrillic(c: char) {
    '\U{0400}' <= c <= '\U{04FF}'
  }

  /** 0x20..0x7E. */
  predicate IsPrintableAscii(c: char) {
    ' ' <= c <= '~'
  }

  function CountCyrillic(s: string): nat
  {
    if s == [] then 0 else (if IsCyrillic(s[0]) then 1 else 0) + CountCyrillic(s[1..])
  }

  function CountPrintableAscii(s: string): nat
  {
    if s == [] then 0 else (if IsPrintableAscii(s[0]) then 1 else 0) + CountPrintableAscii(s[1..])
  }

  /** No character is both, so the two counts together never exceed the length. */
  lemma {:induction false} CountsBounded(s: string)
    ensures CountCyrillic(s) + CountPrintableAscii(s) <= |s|
  {
    if s != [] {
      CountsBounded(s[1..]);
    }
  }

  const TwoTo31: int := 0x8000_0000
  const TwoTo32: int := 0x1_0000_0000

  /** Java's `(int)` cast of a long: the low 32 bits, read as two's complement. */
  function Int32(x: int): (r: int)
    ensures -TwoTo31 <= r < TwoTo31
    ensures (x - r) % TwoTo32 == 0
  {
    var m := x % TwoTo32;
    if m >= TwoTo31 then m - TwoTo32 else m
  }

  /**
   * A decode is a candidate when it has no U+FFFD, some Cyrillic, and Cyrillic
   * plus printable ASCII make up more than four fifths of it.
   */
  predicate Qualifies(content: string) {
    Replacement !in content
    && CountCyrillic(content) > 0
    && 5 * (CountCyrillic(content) + CountPrintableAscii(content)) > 4 * |content|
  }

  /** Ten points per Cyrillic letter and one per printable ASCII character, cast to int. */
  function Score(content: string): int {
    Int32(10 * CountCyrillic(content) + CountPrintableAscii(content))
  }

  /** For files under about 200 MB the cast cannot wrap, so a candidate's score is positive. */
  lemma ScoreDoesNotWrap(content: string)
    requires |content| <= 214748364
    ensures Score(content) == 10 * CountCyrillic(content) + CountPrintableAscii(content)
    ensures Qualifies(content) ==> Score(content) > 0
  {
    CountsBounded(content);
  }

  /** What a code page's decode is worth in the comparison: its score if it is a candidate, else 0 (which never wins). */
  function Rank(cs: Charset, b: seq<byte>): int {
    var content := Decode(cs, b);
    if Qualifies(content) then Score(content) else 0
  }

  /** The order in which the code pages are tried; on a tie the earlier one is kept. */
  const LegacyCandidates: seq<Charset> := [Windows1251, Koi8R, Cp866]

  /** The ranks of all code pages for one file content. */
  function RankOf(b: seq<byte>): Charset -> int {
    cs => Rank(cs, b)
  }

  /** The best match so far and its score. */
  datatype Pick = Pick(best: Option<Charset>, score: int)

  /** The loop's state after it has looked at `cands`: a later code page replaces the match only with a strictly higher rank. */
  function Best(cands: seq<Charset>, rank: Charset -> int): (r: Pick)
    ensures r.score >= 0
    ensures r.best.None? ==> r.score == 0
  {
    if cands == [] then Pick(None, 0)
    else
      var prev := Best(cands[..|cands| - 1], rank);
      var last := cands[|cands| - 1];
      if rank(last) > prev.score then Pick(Some(last), rank(last)) else prev
  }

  /**
   * The match is the first code page with the highest positive rank; there is
   * none exactly when no code page has a positive rank.
   */
  lemma {:induction false} BestIsFirstMaximum(cands: seq<Charset>, rank: Charset -> int)
    ensures Best(cands, rank).best.None? <==> forall k :: 0 <= k < |cands| ==> rank(cands[k]) <= 0
    ensures Best(cands, rank).best.Some? ==>
      exists j :: 0 <= j < |cands| && cands[j] == Best(cands, rank).best.value
        && rank(cands[j]) == Best(cands, rank).score > 0
        && (forall k :: 0 <= k < j ==> rank(cands[k]) < Best(cands, rank).score)
    ensures forall k :: 0 <= k < |cands| ==> rank(cands[k]) <= Best(cands, rank).score
  {
    if cands != [] {
      var init := cands[..|cands| - 1];
      BestIsFirstMaximum(init, rank);
      var prev := Best(init, rank);
      var last := cands[|cands| - 1];
      assert forall k :: 0 <= k < |init| ==> cands[k] == init[k];
      if rank(last) > prev.score {
        var j := |cands| - 1;
        assert cands[j] == Best(cands, rank).best.value;
      } else if prev.best.Some? {
        var j :| 0 <= j < |init| && init[j] == prev.best.value && rank(init[j]) == prev.score > 0
          && (forall k :: 0 <= k < j ==> rank(init[k]) < prev.score);
        assert cands[j] == Best(cands, rank).best.value;
      }
    }
  }

  /** One more step of the loop. */
  lemma BestStep(cands: seq<Charset>, i: nat, rank: Charset -> int)
    requires i < |cands|
    ensures Best(cands[..i + 1], rank) ==
      if rank(cands[i]) > Best(cands[..i], rank).score then Pick(Some(cands[i]), rank(cands[i]))
      else Best(cands[..i], rank)
  {
    assert cands[..i + 1][..i] == cands[..i];
  }

  /**
   * The body of the detector's loop for one code page: whether its decode is a
   * candidate and, if so, its score.
   */
  method AssessCandidate(cs: Charset, b: seq<byte>) returns (qualifies: bool, score: int)
    ensures qualifies <==> Qualifies(Decode(cs, b))
    ensures Rank(cs, b) == if qualifies then score else 0
  {
    var content := Decode(cs, b);
    if Replacement in content {
      return false, 0;
    }
    var cyrillic := CountCyrillic(content);
    var ascii := CountPrintableAscii(content);
    qualifies := cyrillic > 0 && 5 * (ascii + cyrillic) > 4 * |content|;
    score := if qualifies then Int32(cyrillic * 10 + ascii) else 0;
  }

  /** The loop of the detector over the code pages (called with LegacyCandidates). */
  method BestLegacyMatch(candidates: seq<Charset>, b: seq<byte>) returns (bestMatch: Option<Charset>, bestScore: int)
    ensures Pick(bestMatch, bestScore) == Best(candidates, RankOf(b))
  {
    bestMatch, bestScore := None, 0;
    var i := 0;
    while i < |candidates|
      invariant 0 <= i <= |candidates|
      invariant Pick(bestMatch, bestScore) == Best(candidates[..i], RankOf(b))
    {
      var cs := candidates[i];
      BestStep(candidates, i, RankOf(b));
      assert RankOf(b)(cs) == Rank(cs, b);
      var qualifies, score := AssessCandidate(cs, b);
      if qualifies && score > bestScore {
        bestScore := score;
        bestMatch := Some(cs);
      }
      i := i + 1;
    }
    assert candidates[..i] == candidates;
  }

  // ---------------------------------------------------------------- the precedence

  /** A non-blank override, trimmed. */
  function ExplicitEncoding(configEncoding: Option<string>): (r: Option<string>)
    ensures r.Some? <==> configEncoding.Some? && !IsBlank(configEncoding.value)
    ensures r.Some? ==> r.value == Trim(configEncoding.value) && r.value != []
  {
    if configEncoding.Some? && !IsBlank(configEncoding.value) then Some(Trim(configEncoding.value)) else None
  }

  const CharsetMarker: string := "charset="

  /** What follows the first `charset=` in the utility's output line, trimmed. */
  function CharsetFromFileOutput(output: Option<string>): (r: Option<string>)
    ensures r.Some? <==> output.Some? && Contains(output.value, CharsetMarker)
    ensures r.Some? ==> exists i :: OccursAt(output.value, CharsetMarker, i) && r.value == Trim(output.value[i + |CharsetMarker|..])
  {
    if output.Some? && Contains(output.value, CharsetMarker) then
      var i := IndexOf(output.value, CharsetMarker).value;
      Some(Trim(output.value[i + |CharsetMarker|..]))
    else None
  }

  /** The name the detector gives when nothing else decides. */
  const DefaultEncodingName: string := "Windows-1251"

  /**
   * detectFileEncoding: `config` is the configuration file's content, `None`
   * when the file does not exist.
   */
  function DetectEncoding(config: Option<seq<byte>>, configEncoding: Option<string>, fileTool: FileTool): Option<string>
  {
    if config.None? then None
    else if ExplicitEncoding(configEncoding).Some? then ExplicitEncoding(configEncoding)
    else if IsValidUtf8(config.value) then Some("UTF-8")
    else match Best(LegacyCandidates, RankOf(config.value)).best
      case Some(cs) => Some(Name(cs))
      case None =>
        match CharsetFromFileOutput(fileTool(config.value))
        case Some(e) => Some(e)
        case None => Some(DefaultEncodingName)
  }

  /** A missing file gives no answer, whatever the override says; an existing one always gives one. */
  lemma DetectionAnswersIffFileExists(config: Option<seq<byte>>, configEncoding: Option<string>, fileTool: FileTool)
    ensures DetectEncoding(config, configEncoding, fileTool).Some? <==> config.Some?
  {
  }

  /** A non-blank override wins over the content, trimmed. */
  lemma OverrideWins(bytes: seq<byte>, configEncoding: string, fileTool: FileTool)
    requires !IsBlank(configEncoding)
    ensures DetectEncoding(Some(bytes), Some(configEncoding), fileTool) == Some(Trim(configEncoding))
  {
  }

  /** Without an override, any text free of U+FFFD that was written as UTF-8 is detected as UTF-8. */
  lemma Utf8TextDetected(s: string, fileTool: FileTool)
    requires Replacement !in s
    ensures DetectEncoding(Some(Utf8Encode(s)), None, fileTool) == Some("UTF-8")
  {
    EncodedTextIsValidUtf8(s);
  }

  /**
   * Without an override, content that is not UTF-8 gets the name of the
   * first code page with the highest positive rank, if there is one; the
   * utility is consulted only when there is none.
   */
  lemma LegacyChoice(bytes: seq<byte>, fileTool: FileTool)
    requires !IsValidUtf8(bytes)
    ensures var d := DetectEncoding(Some(bytes), None, fileTool);
      (exists k :: 0 <= k < |LegacyCandidates| && Rank(LegacyCandidates[k], bytes) > 0) ==>
        (exists j :: 0 <= j < |LegacyCandidates| && d == Some(Name(LegacyCandidates[j]))
          && (forall k :: 0 <= k < |LegacyCandidates| ==> Rank(LegacyCandidates[k], bytes) <= Rank(LegacyCandidates[j], bytes))
          && (forall k :: 0 <= k < j ==> Rank(LegacyCandidates[k], bytes) < Rank(LegacyCandidates[j], bytes)))
    ensures var d := DetectEncoding(Some(bytes), None, fileTool);
      (forall k :: 0 <= k < |LegacyCandidates| ==> Rank(LegacyCandidates[k], bytes) <= 0)
      ==> d == (if CharsetFromFileOutput(fileTool(bytes)).Some? then CharsetFromFileOutput(fileTool(bytes)) else Some(DefaultEncodingName))
  {
    BestIsFirstMaximum(LegacyCandidates, RankOf(bytes));
  }
}
