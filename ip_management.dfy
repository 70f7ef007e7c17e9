/**
 * Adding routes to the OpenVPN server configuration: an IPv4 address becomes
 * a /24 subnet and a `push "route …"` line, a line that is already present
 * is refused, and an optional comment line and then the route are appended.
 *
 * Name resolution (InetAddress.getByName) is an input: for an address,
 * whether it resolves; for a domain, the host address it resolves to, if any.
 */
module IpManagement {
  import opened Wrappers
  import opened JavaText
  import opened Charsets
  import opened Files
  import opened EncodingDetection
  import opened ConfigDocument
  import opened ConfigFileService
  import opened ConfigLifecycle

  // ---------------------------------------------------------------- subnet and route lines

  /**
   * `ipAddress.split("\\.")` must give exactly four parts; the subnet keeps
   * the first three and puts `0` in place of the fourth.
   */
  function Subnet(ipAddress: string): (r: Option<string>)
    ensures r.Some? <==> |SplitOnChar(ipAddress, '.')| == 4
  {
    var ipParts := SplitOnChar(ipAddress, '.');
    if |ipParts| != 4 then None
    else Some(ipParts[0] + "." + ipParts[1] + "." + ipParts[2] + ".0")
  }

  /** Four dot-free parts, the last non-empty, give the subnet of their first three. */
  lemma SubnetOfDotted(a: string, b: string, c: string, d: string)
    requires '.' !in a && '.' !in b && '.' !in c && '.' !in d && d != []
    ensures SplitOnChar(a + "." + b + "." + c + "." + d, '.') == [a, b, c, d]
    ensures Subnet(a + "." + b + "." + c + "." + d) == Some(a + "." + b + "." + c + ".0")
  {
    var parts := [a, b, c, d];
    assert JoinWith(parts[3..], '.') == d;
    assert JoinWith(parts[2..], '.') == c + "." + d;
    assert JoinWith(parts[1..], '.') == b + "." + c + "." + d;
    assert JoinWith(parts, '.') == a + "." + b + "." + c + "." + d;
    SplitOfJoin(parts, [], '.');
    assert parts + [] == parts;
  }

  /**
   * The subnet of an address splits into the address's first three parts and
   * `0`, so it is its own subnet: deriving it twice changes nothing.
   */
  lemma SubnetIsStable(ipAddress: string)
    requires Subnet(ipAddress).Some?
    ensures var ipParts := SplitOnChar(ipAddress, '.');
      SplitOnChar(Subnet(ipAddress).value, '.') == ipParts[..3] + ["0"]
    ensures Subnet(Subnet(ipAddress).value) == Subnet(ipAddress)
  {
    var ipParts := SplitOnChar(ipAddress, '.');
    var a, b, c := ipParts[0], ipParts[1], ipParts[2];
    assert '.' !in a && '.' !in b && '.' !in c;
    SubnetOfDotted(a, b, c, "0");
    DotZero(a + "." + b + "." + c);
    FirstThreeAndZero(ipParts);
  }

  lemma DotZero(head: string)
    ensures head + "." + "0" == head + ".0"
  {
  }

  lemma FirstThreeAndZero(parts: seq<string>)
    requires |parts| == 4
    ensures [parts[0], parts[1], parts[2], "0"] == parts[..3] + ["0"]
  {
  }

  /** The route pushed for a /24 subnet. */
  function SubnetRoute(subnet: string): string {
    "push \"route " + subnet + " 255.255.255.0\""
  }

  /** The route pushed for a single host. */
  function HostRoute(ipAddress: string): string {
    "push \"route " + ipAddress + " 255.255.255.255\""
  }

  /** Different subnets or hosts give different route lines, and a subnet route is never a host route. */
  lemma RoutesAreDistinct(s1: string, s2: string)
    ensures SubnetRoute(s1) == SubnetRoute(s2) <==> s1 == s2
    ensures HostRoute(s1) == HostRoute(s2) <==> s1 == s2
    ensures SubnetRoute(s1) != HostRoute(s2)
  {
    var head := "push \"route ";
    if SubnetRoute(s1) == SubnetRoute(s2) {
      assert s1 == SubnetRoute(s1)[|head|..|head| + |s1|];
    }
    if HostRoute(s1) == HostRoute(s2) {
      assert s1 == HostRoute(s1)[|head|..|head| + |s1|];
    }
    var r1, r2 := SubnetRoute(s1), HostRoute(s2);
    if |r1| == |r2| {
      assert r1[|r1| - 2] == '0' && r2[|r2| - 2] == '5';
    }
  }

  // ---------------------------------------------------------------- what a request does

  /** What the controller reports back to the page. */
  datatype Outcome =
    | Added
    | AlreadyPresent(existing: string)
    | BadFormat
    | UnknownHost
    | Failed(error: IoError)

  /** The disk after a request and what was reported. */
  datatype Reply = Reply(disk: Disk, outcome: Outcome)

  /** A line has been added after the configuration's lines, one appendLine call each, until one fails. */
  function AppendAll(p: Properties, fileTool: FileTool, d: Disk, lines: seq<string>): (r: Reply)
    ensures r.outcome == Added || r.outcome.Failed?
    decreases |lines|
  {
    if lines == [] then Reply(d, Added)
    else
      var e := AppendLineEffect(p, fileTool, d, lines[0]);
      match e.result
      case Err(error) => Reply(e.disk, Failed(error))
      case Ok(_) => AppendAll(p, fileTool, e.disk, lines[1..])
  }

  /** After a successful append, the rest of the lines are appended to the disk it left. */
  lemma AppendAllStep(p: Properties, fileTool: FileTool, d: Disk, lines: seq<string>)
    requires lines != []
    ensures var e := AppendLineEffect(p, fileTool, d, lines[0]);
      (e.result.Err? ==> AppendAll(p, fileTool, d, lines).outcome.Failed?)
      && (e.result.Ok? ==> AppendAll(p, fileTool, d, lines) == AppendAll(p, fileTool, e.disk, lines[1..]))
  {
  }

  /** The comment line of addIp: `#` and the trimmed comment, for a comment that is present and not blank. */
  function CommentLines(comment: Option<string>): seq<string> {
    if comment.Some? && !IsBlank(comment.value) then ["#" + Trim(comment.value)] else []
  }

  /**
   * addIp. `resolves` is whether InetAddress.getByName accepts the address; a
   * failed read or write of the configuration is reported as `Failed`.
   */
  function AddIpEffect(p: Properties, fileTool: FileTool, d: Disk, ipAddress: string, comment: Option<string>, resolves: bool): Reply {
    if !resolves then Reply(d, UnknownHost)
    else match Subnet(ipAddress)
      case None => Reply(d, BadFormat)
      case Some(subnet) =>
        var routeLine := SubnetRoute(subnet);
        match FindLineOnDisk(p, fileTool, d, routeLine)
        case Err(error) => Reply(d, Failed(error))
        case Ok(Some(existingLine)) => Reply(d, AlreadyPresent(existingLine))
        case Ok(None) => AppendAll(p, fileTool, d, CommentLines(comment) + [routeLine])
  }

  /**
   * addIpByDomain. `resolved` is the host address of the domain, or None when
   * it does not resolve. The exact host route is looked for first, then the
   * address must have four parts, then its subnet route is looked for.
   */
  function AddIpByDomainEffect(p: Properties, fileTool: FileTool, d: Disk, domain: string, resolved: Option<string>): Reply {
    match resolved
    case None => Reply(d, UnknownHost)
    case Some(ipAddress) =>
      var exactRouteLine := HostRoute(ipAddress);
      match FindLineOnDisk(p, fileTool, d, exactRouteLine)
      case Err(error) => Reply(d, Failed(error))
      case Ok(Some(existingExactRoute)) => Reply(d, AlreadyPresent(existingExactRoute))
      case Ok(None) =>
        match Subnet(ipAddress)
        case None => Reply(d, BadFormat)
        case Some(subnet) =>
          match FindLineOnDisk(p, fileTool, d, SubnetRoute(subnet))
          case Err(error) => Reply(d, Failed(error))
          case Ok(Some(existingSubnetRoute)) => Reply(d, AlreadyPresent(existingSubnetRoute))
          case Ok(None) => AppendAll(p, fileTool, d, ["#" + domain, exactRouteLine])
  }

  // ---------------------------------------------------------------- properties of addIp

  /** Whether some line of the configuration contains `text`. */
  predicate SomeLineContains(lines: seq<string>, text: string) {
    exists k :: 0 <= k < |lines| && Contains(lines[k], text)
  }

  /**
   * addIp changes the disk only by appending: an unresolvable address, an
   * address without four parts and a route already present leave it as it
   * was; a present route is reported with the first line containing it, and
   * the lines are appended only when no line contains the route.
   */
  lemma AddIpRefusals(p: Properties, fileTool: FileTool, d: Disk, ipAddress: string, comment: Option<string>, resolves: bool)
    ensures var r := AddIpEffect(p, fileTool, d, ipAddress, comment, resolves);
      (r.outcome == UnknownHost <==> !resolves)
      && (r.outcome == BadFormat <==> resolves && |SplitOnChar(ipAddress, '.')| != 4)
      && (r.outcome == UnknownHost || r.outcome == BadFormat || r.outcome.AlreadyPresent? ==> r.disk == d)
    ensures var r := AddIpEffect(p, fileTool, d, ipAddress, comment, resolves);
      var read := ReadConfig(p, fileTool, d);
      resolves && Subnet(ipAddress).Some? && read.Ok? ==>
        var routeLine := SubnetRoute(Subnet(ipAddress).value);
        (r.outcome.AlreadyPresent? <==> SomeLineContains(read.value, routeLine))
        && (r.outcome.AlreadyPresent? ==> Some(r.outcome.existing) == FindContaining(read.value, routeLine))
  {
  }

  /** A request that reads the configuration and finds the route absent is the append of its lines. */
  lemma AddIpAppends(p: Properties, fileTool: FileTool, d: Disk, ipAddress: string, comment: Option<string>, resolves: bool)
    requires AddIpEffect(p, fileTool, d, ipAddress, comment, resolves).outcome == Added
    ensures resolves && Subnet(ipAddress).Some? && ReadConfig(p, fileTool, d).Ok?
    ensures !SomeLineContains(ReadConfig(p, fileTool, d).value, SubnetRoute(Subnet(ipAddress).value))
    ensures AddIpEffect(p, fileTool, d, ipAddress, comment, resolves)
      == AppendAll(p, fileTool, d, CommentLines(comment) + [SubnetRoute(Subnet(ipAddress).value)])
  {
  }

  /** Lines that read back as themselves once appended. */
  predicate Appendable(lines: seq<string>) {
    forall k :: 0 <= k < |lines| ==> IsAscii(lines[k]) && IsPlainLine(lines[k]) && lines[k] != []
  }

  /**
   * Appending plain ASCII lines to a plain ASCII configuration, when every
   * write succeeds, leaves a file that reads as the old lines followed by the
   * new ones in order.
   */
  lemma {:induction false} AppendAllThenRead(p: Properties, fileTool: FileTool, d: Disk, lines: seq<string>)
    requires ReadConfig(p, fileTool, d).Ok? && PlainAscii(ReadConfig(p, fileTool, d).value)
    requires Appendable(lines)
    requires AppendAll(p, fileTool, d, lines).outcome == Added
    ensures ReadConfig(p, fileTool, AppendAll(p, fileTool, d, lines).disk) == Ok(ReadConfig(p, fileTool, d).value + lines)
    decreases |lines|
  {
    var before := ReadConfig(p, fileTool, d).value;
    if lines == [] {
      assert AppendAll(p, fileTool, d, lines) == Reply(d, Added);
      assert before + lines == before;
    } else {
      var e := AppendLineEffect(p, fileTool, d, lines[0]);
      AppendAllStep(p, fileTool, d, lines);
      assert e.result.Ok?;
      AppendThenRead(p, fileTool, d, lines[0]);
      var mid := before + [lines[0]];
      assert ReadConfig(p, fileTool, e.disk) == Ok(mid);
      PlainAsciiOfAppended(before, lines);
      AppendableOfTail(lines);
      AppendAllThenRead(p, fileTool, e.disk, lines[1..]);
      AppendHead(before, lines);
    }
  }

  /** Plain ASCII lines followed by the head of appendable lines stay plain ASCII. */
  lemma PlainAsciiOfAppended(before: seq<string>, lines: seq<string>)
    requires PlainAscii(before) && Appendable(lines) && lines != []
    ensures PlainAscii(before + [lines[0]])
  {
    var mid := before + [lines[0]];
    forall k | 0 <= k < |mid| ensures IsAscii(mid[k]) && IsPlainLine(mid[k]) {
      if k < |before| {
        assert mid[k] == before[k];
      }
    }
  }

  /** The tail of appendable lines is appendable. */
  lemma AppendableOfTail(lines: seq<string>)
    requires Appendable(lines) && lines != []
    ensures Appendable(lines[1..])
  {
    forall k | 0 <= k < |lines| - 1 ensures IsAscii(lines[1..][k]) && IsPlainLine(lines[1..][k]) && lines[1..][k] != [] {
      assert lines[1..][k] == lines[k + 1];
    }
  }

  /** Appending a non-empty list is appending its head and then its tail. */
  lemma AppendHead(before: seq<string>, lines: seq<string>)
    requires lines != []
    ensures before + lines == (before + [lines[0]]) + lines[1..]
  {
    assert lines == [lines[0]] + lines[1..];
  }

  /** ASCII text without a line feed. */
  predicate IsAsciiLineText(s: string) {
    IsAscii(s) && '\n' !in s
  }

  /** Concatenation keeps ASCII text free of line feeds. */
  lemma AsciiLineConcat(a: string, b: string)
    requires IsAsciiLineText(a) && IsAsciiLineText(b)
    ensures IsAsciiLineText(a + b)
  {
    forall i | 0 <= i < |a + b| ensures (a + b)[i] < 128 as char {
      if i >= |a| {
        assert (a + b)[i] == b[i - |a|];
      }
    }
  }

  /** The subnet of an ASCII address without line feeds is such text too. */
  lemma SubnetIsAsciiLine(ipAddress: string)
    requires Subnet(ipAddress).Some? && IsAsciiLineText(ipAddress)
    ensures IsAsciiLineText(Subnet(ipAddress).value)
  {
    var ipParts := SplitOnChar(ipAddress, '.');
    forall k | 0 <= k < 3 ensures IsAsciiLineText(ipParts[k]) {
      PartOfSplit(ipAddress, k);
    }
    AsciiLineConcat(ipParts[0], ".");
    AsciiLineConcat(ipParts[0] + ".", ipParts[1]);
    AsciiLineConcat(ipParts[0] + "." + ipParts[1], ".");
    AsciiLineConcat(ipParts[0] + "." + ipParts[1] + ".", ipParts[2]);
    AsciiLineConcat(ipParts[0] + "." + ipParts[1] + "." + ipParts[2], ".0");
  }

  /** Route lines built from ASCII text without line feeds read back as themselves. */
  lemma RoutesAreAppendable(s: string)
    requires IsAsciiLineText(s)
    ensures Appendable([SubnetRoute(s)]) && Appendable([HostRoute(s)])
  {
    AsciiLineConcat("push \"route ", s);
    AsciiLineConcat("push \"route " + s, " 255.255.255.0\"");
    AsciiLineConcat("push \"route " + s, " 255.255.255.255\"");
  }

  /** The comment line of addIp, for an ASCII comment without line feeds, reads back as itself. */
  lemma CommentLinesAreAppendable(comment: Option<string>)
    requires comment.Some? ==> IsAsciiLineText(comment.value)
    ensures Appendable(CommentLines(comment))
  {
    if comment.Some? && !IsBlank(comment.value) {
      var t := Trim(comment.value);
      TrimIsInfix(comment.value);
      assert IsAsciiLineText(t);
      AsciiLineConcat("#", t);
      var commentLine := "#" + t;
      assert commentLine[|commentLine| - 1] == t[|t| - 1];
    }
  }

  /** The comment and route lines of addIp read back as themselves. */
  lemma AddIpLinesAreAppendable(ipAddress: string, comment: Option<string>)
    requires Subnet(ipAddress).Some? && IsAsciiLineText(ipAddress)
    requires comment.Some? ==> IsAsciiLineText(comment.value)
    ensures Appendable(CommentLines(comment) + [SubnetRoute(Subnet(ipAddress).value)])
  {
    SubnetIsAsciiLine(ipAddress);
    RoutesAreAppendable(Subnet(ipAddress).value);
    CommentLinesAreAppendable(comment);
  }

  /** Every character of a piece of a split is a character of the split string. */
  lemma PartOfSplit(s: string, k: nat)
    requires k < |SplitOnChar(s, '.')|
    ensures forall i :: 0 <= i < |SplitOnChar(s, '.')[k]| ==> SplitOnChar(s, '.')[k][i] in s
  {
    if '.' in s {
      FieldsAreInfixes(s, '.');
    }
  }

  /** Each piece of Fields is made of characters of the string. */
  lemma {:induction false} FieldsAreInfixes(s: string, d: char)
    ensures forall k, i :: 0 <= k < |Fields(s, d)| && 0 <= i < |Fields(s, d)[k]| ==> Fields(s, d)[k][i] in s
    decreases |s|
  {
    match IndexOf(s, [d])
    case None =>
    case Some(j) =>
      FieldsAreInfixes(s[j + 1..], d);
      var rest := Fields(s[j + 1..], d);
      assert Fields(s, d) == [s[..j]] + rest;
      forall k, i | 0 <= k < |Fields(s, d)| && 0 <= i < |Fields(s, d)[k]|
        ensures Fields(s, d)[k][i] in s
      {
        if k == 0 {
          assert Fields(s, d)[k][i] == s[i];
        } else {
          var c := rest[k - 1][i];
          assert c in s[j + 1..];
          var m :| 0 <= m < |s[j + 1..]| && s[j + 1..][m] == c;
          assert s[j + 1 + m] == c;
        }
      }
  }

  /**
   * A successful addIp on a plain ASCII configuration leaves a file that
   * reads as the old lines, then the comment line if the comment is not
   * blank, then the subnet route as the last line.
   */
  lemma AddIpThenRead(p: Properties, fileTool: FileTool, d: Disk, ipAddress: string, comment: Option<string>, resolves: bool)
    requires ReadConfig(p, fileTool, d).Ok? && PlainAscii(ReadConfig(p, fileTool, d).value)
    requires IsAsciiLineText(ipAddress)
    requires comment.Some? ==> IsAsciiLineText(comment.value)
    requires AddIpEffect(p, fileTool, d, ipAddress, comment, resolves).outcome == Added
    ensures var after := AddIpEffect(p, fileTool, d, ipAddress, comment, resolves).disk;
      ReadConfig(p, fileTool, after)
        == Ok(ReadConfig(p, fileTool, d).value + CommentLines(comment) + [SubnetRoute(Subnet(ipAddress).value)])
  {
    AddIpAppends(p, fileTool, d, ipAddress, comment, resolves);
    var before := ReadConfig(p, fileTool, d).value;
    var routeLines := [SubnetRoute(Subnet(ipAddress).value)];
    var lines := CommentLines(comment) + routeLines;
    AddIpLinesAreAppendable(ipAddress, comment);
    AppendAllThenRead(p, fileTool, d, lines);
    ConcatAssoc(before, CommentLines(comment), routeLines);
  }

  /** Concatenation of lines is associative. */
  lemma ConcatAssoc(a: seq<string>, b: seq<string>, c: seq<string>)
    ensures a + (b + c) == a + b + c
  {
  }

  /** A string contains itself. */
  lemma ContainsItself(s: string)
    ensures Contains(s, s)
  {
    assert OccursAt(s, s, 0);
  }

  /**
   * Duplicates are refused: once addIp has added an address's route to a
   * plain ASCII configuration, the same request again is refused and changes
   * nothing.
   */
  lemma AddIpTwiceIsRefused(p: Properties, fileTool: FileTool, d: Disk, ipAddress: string, comment: Option<string>)
    requires ReadConfig(p, fileTool, d).Ok? && PlainAscii(ReadConfig(p, fileTool, d).value)
    requires IsAsciiLineText(ipAddress)
    requires comment.Some? ==> IsAsciiLineText(comment.value)
    requires AddIpEffect(p, fileTool, d, ipAddress, comment, true).outcome == Added
    ensures var after := AddIpEffect(p, fileTool, d, ipAddress, comment, true).disk;
      var again := AddIpEffect(p, fileTool, after, ipAddress, comment, true);
      again.outcome.AlreadyPresent? && again.disk == after
  {
    AddIpThenRead(p, fileTool, d, ipAddress, comment, true);
    var after := AddIpEffect(p, fileTool, d, ipAddress, comment, true).disk;
    var routeLine := SubnetRoute(Subnet(ipAddress).value);
    var before := ReadConfig(p, fileTool, d).value + CommentLines(comment);
    assert ReadConfig(p, fileTool, after) == Ok(before + [routeLine]);
    EndsWithLine(before, routeLine);
    AddIpRefusals(p, fileTool, after, ipAddress, comment, true);
  }

  /** Lines that end with a line contain that line. */
  lemma EndsWithLine(before: seq<string>, line: string)
    ensures SomeLineContains(before + [line], line)
  {
    ContainsItself(line);
    assert (before + [line])[|before|] == line;
  }

  // ---------------------------------------------------------------- properties of addIpByDomain

  /**
   * addIpByDomain refuses, leaving the disk as it was, when the domain does not
   * resolve, when a line contains the host route, when the address does not
   * have four parts, or when a line contains its subnet route; it appends only
   * when the configuration reads and neither route is present.
   */
  lemma AddIpByDomainRefusals(p: Properties, fileTool: FileTool, d: Disk, domain: string, resolved: Option<string>)
    ensures var r := AddIpByDomainEffect(p, fileTool, d, domain, resolved);
      (r.outcome == UnknownHost <==> resolved.None?)
      && (r.outcome == UnknownHost || r.outcome == BadFormat || r.outcome.AlreadyPresent? ==> r.disk == d)
    ensures var r := AddIpByDomainEffect(p, fileTool, d, domain, resolved);
      var read := ReadConfig(p, fileTool, d);
      resolved.Some? && read.Ok? ==>
        var ipAddress := resolved.value;
        var exact := SomeLineContains(read.value, HostRoute(ipAddress));
        (r.outcome == BadFormat <==> !exact && Subnet(ipAddress).None?)
        && (r.outcome.AlreadyPresent? <==>
              exact || (Subnet(ipAddress).Some? && SomeLineContains(read.value, SubnetRoute(Subnet(ipAddress).value))))
    ensures var r := AddIpByDomainEffect(p, fileTool, d, domain, resolved);
      r.outcome == Added ==>
        resolved.Some? && Subnet(resolved.value).Some? && ReadConfig(p, fileTool, d).Ok?
        && !SomeLineContains(ReadConfig(p, fileTool, d).value, HostRoute(resolved.value))
        && !SomeLineContains(ReadConfig(p, fileTool, d).value, SubnetRoute(Subnet(resolved.value).value))
  {
    match resolved
    case None =>
    case Some(ipAddress) =>
      var read := ReadConfig(p, fileTool, d);
      if read.Ok? {
        var exact := FindContaining(read.value, HostRoute(ipAddress));
        assert exact.Some? <==> SomeLineContains(read.value, HostRoute(ipAddress));
        if exact.None? && Subnet(ipAddress).Some? {
          var routeLine := SubnetRoute(Subnet(ipAddress).value);
          assert FindContaining(read.value, routeLine).Some? <==> SomeLineContains(read.value, routeLine);
        }
      }
  }

  /** A request that finds neither route is the append of `#` and the domain, then the host route. */
  lemma AddIpByDomainAppends(p: Properties, fileTool: FileTool, d: Disk, domain: string, resolved: Option<string>)
    requires AddIpByDomainEffect(p, fileTool, d, domain, resolved).outcome == Added
    ensures resolved.Some? && ReadConfig(p, fileTool, d).Ok?
    ensures AddIpByDomainEffect(p, fileTool, d, domain, resolved)
      == AppendAll(p, fileTool, d, ["#" + domain, HostRoute(resolved.value)])
  {
  }

  /** The two lines of addIpByDomain, for ASCII text without line feeds, read back as themselves. */
  lemma DomainLinesAreAppendable(domain: string, ipAddress: string)
    requires IsAsciiLineText(domain) && IsPlainLine(domain) && IsAsciiLineText(ipAddress)
    ensures Appendable(["#" + domain, HostRoute(ipAddress)])
  {
    AsciiLineConcat("#", domain);
    var commentLine := "#" + domain;
    if domain != [] {
      assert commentLine[|commentLine| - 1] == domain[|domain| - 1];
    } else {
      assert commentLine == "#";
    }
    assert IsAscii(commentLine) && IsPlainLine(commentLine) && commentLine != [];
    RoutesAreAppendable(ipAddress);
    assert [HostRoute(ipAddress)][0] == HostRoute(ipAddress);
  }

  /**
   * A successful addIpByDomain on a plain ASCII configuration leaves a file
   * that reads as the old lines, then `#` and the domain, then the host route:
   * never the subnet route.
   */
  lemma AddIpByDomainThenRead(p: Properties, fileTool: FileTool, d: Disk, domain: string, resolved: Option<string>)
    requires ReadConfig(p, fileTool, d).Ok? && PlainAscii(ReadConfig(p, fileTool, d).value)
    requires IsAsciiLineText(domain) && IsPlainLine(domain)
    requires resolved.Some? && IsAsciiLineText(resolved.value)
    requires AddIpByDomainEffect(p, fileTool, d, domain, resolved).outcome == Added
    ensures var after := AddIpByDomainEffect(p, fileTool, d, domain, resolved).disk;
      ReadConfig(p, fileTool, after) == Ok(ReadConfig(p, fileTool, d).value + ["#" + domain, HostRoute(resolved.value)])
  {
    AddIpByDomainAppends(p, fileTool, d, domain, resolved);
    DomainLinesAreAppendable(domain, resolved.value);
    AppendAllThenRead(p, fileTool, d, ["#" + domain, HostRoute(resolved.value)]);
  }

  /** Once addIpByDomain has added an address to a plain ASCII configuration, the same request again is refused and changes nothing. */
  lemma AddIpByDomainTwiceIsRefused(p: Properties, fileTool: FileTool, d: Disk, domain: string, resolved: Option<string>)
    requires ReadConfig(p, fileTool, d).Ok? && PlainAscii(ReadConfig(p, fileTool, d).value)
    requires IsAsciiLineText(domain) && IsPlainLine(domain)
    requires resolved.Some? && IsAsciiLineText(resolved.value)
    requires AddIpByDomainEffect(p, fileTool, d, domain, resolved).outcome == Added
    ensures var after := AddIpByDomainEffect(p, fileTool, d, domain, resolved).disk;
      var again := AddIpByDomainEffect(p, fileTool, after, domain, resolved);
      again.outcome.AlreadyPresent? && again.disk == after
  {
    AddIpByDomainThenRead(p, fileTool, d, domain, resolved);
    var after := AddIpByDomainEffect(p, fileTool, d, domain, resolved).disk;
    var read := ReadConfig(p, fileTool, after).value;
    ContainsItself(HostRoute(resolved.value));
    assert read[|read| - 1] == HostRoute(resolved.value);
    AddIpByDomainRefusals(p, fileTool, after, domain, resolved);
  }

  // ---------------------------------------------------------------- the controller

  class IpManagementController {
    const configFileService: ConfigFileService

    constructor (configFileService: ConfigFileService)
      ensures this.configFileService == configFileService
    {
      this.configFileService := configFileService;
    }

    /** Appends `lines` one appendLine call at a time, stopping at the first failure. */
    method AppendEach(lines: seq<string>) returns (outcome: Outcome)
      modifies configFileService.fs
      ensures var svc := configFileService;
        Reply(svc.fs.State(), outcome) == AppendAll(svc.props, svc.fileTool, old(svc.fs.State()), lines)
    {
      var svc := configFileService;
      var i := 0;
      while i < |lines|
        invariant 0 <= i <= |lines|
        invariant AppendAll(svc.props, svc.fileTool, old(svc.fs.State()), lines)
          == AppendAll(svc.props, svc.fileTool, svc.fs.State(), lines[i..])
      {
        var r := svc.AppendLine(lines[i]);
        if r.Err? {
          return Failed(r.error);
        }
        assert lines[i..][1..] == lines[i + 1..];
        i := i + 1;
      }
      outcome := Added;
    }

    /** addIp. */
    method AddIp(ipAddress: string, comment: Option<string>, resolves: bool) returns (outcome: Outcome)
      modifies configFileService.fs
      ensures var svc := configFileService;
        Reply(svc.fs.State(), outcome) == AddIpEffect(svc.props, svc.fileTool, old(svc.fs.State()), ipAddress, comment, resolves)
    {
      if !resolves {
        return UnknownHost;
      }
      var ipParts := SplitOnChar(ipAddress, '.');
      if |ipParts| != 4 {
        return BadFormat;
      }
      var subnet := ipParts[0] + "." + ipParts[1] + "." + ipParts[2] + ".0";
      var routeLine := SubnetRoute(subnet);
      var existingLine := configFileService.FindLineContaining(routeLine);
      match existingLine {
        case Err(error) =>
          return Failed(error);
        case Ok(Some(line)) =>
          return AlreadyPresent(line);
        case Ok(None) =>
          assert Subnet(ipAddress) == Some(subnet);
          var toAppend := [routeLine];
          if comment.Some? && !IsBlank(comment.value) {
            var commentLine := "#" + Trim(comment.value);
            toAppend := [commentLine] + toAppend;
          }
          assert toAppend == CommentLines(comment) + [routeLine];
          outcome := AppendEach(toAppend);
      }
    }

    /** addIpByDomain. */
    method AddIpByDomain(domain: string, resolved: Option<string>) returns (outcome: Outcome)
      modifies configFileService.fs
      ensures var svc := configFileService;
        Reply(svc.fs.State(), outcome) == AddIpByDomainEffect(svc.props, svc.fileTool, old(svc.fs.State()), domain, resolved)
    {
      if resolved.None? {
        return UnknownHost;
      }
      var ipAddress := resolved.value;
      var exactRouteLine := HostRoute(ipAddress);
      var existingExactRoute := configFileService.FindLineContaining(exactRouteLine);
      if existingExactRoute.Err? {
        return Failed(existingExactRoute.error);
      } else if existingExactRoute.value.Some? {
        return AlreadyPresent(existingExactRoute.value.value);
      }
      var ipParts := SplitOnChar(ipAddress, '.');
      if |ipParts| != 4 {
        return BadFormat;
      }
      var subnet := ipParts[0] + "." + ipParts[1] + "." + ipParts[2] + ".0";
      var existingSubnetRoute := configFileService.FindLineContaining(SubnetRoute(subnet));
      if existingSubnetRoute.Err? {
        return Failed(existingSubnetRoute.error);
      } else if existingSubnetRoute.value.Some? {
        return AlreadyPresent(existingSubnetRoute.value.value);
      }
      outcome := AppendEach(["#" + domain, exactRouteLine]);
    }
  }
}
