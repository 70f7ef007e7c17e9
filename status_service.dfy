/**
 * OpenVpnStatusService: the OpenVPN status log read line by line, the time of
 * its last update, and one record per connected client taken from the client
 * list that ends at the routing table.
 *
 * The scan is specified as a fold of one step per line (`Scan`); `ParseStatus`
 * is then characterised independently: the last `Updated,` line before the
 * routing table, and the records between the client-list title and the
 * routing table, in file order.
 */
module StatusService {
  import opened Wrappers
  import opened JavaText
  import opened CharsetNames
  import opened Charsets
  import opened Files
  import opened EncodingDetection
  import opened ConfigFileService
  import opened StatusTime

  // ---------------------------------------------------------------- reading the log

  /** `<root>/openvpn-status1194.log`. */
  function StatusPath(p: Properties): Path {
    p.openvpnRoot + "/openvpn-status1194.log"
  }

  /** determineEncoding: the override's charset when it is non-blank and supported, else UTF-8. */
  function StatusCharset(configEncoding: Option<string>): (r: Charset)
    ensures ExplicitEncoding(configEncoding).Some? && ForName(ExplicitEncoding(configEncoding).value).Some?
      ==> r == ForName(ExplicitEncoding(configEncoding).value).value
    ensures ExplicitEncoding(configEncoding).None? || ForName(ExplicitEncoding(configEncoding).value).None?
      ==> r == Utf8
  {
    match ExplicitEncoding(configEncoding)
    case None => Utf8
    case Some(name) =>
      match ForName(name)
      case Some(cs) => cs
      case None => Utf8
  }

  /**
   * Files.readAllLines decodes with a decoder that reports bad input instead of
   * replacing it: malformed UTF-8, or a byte the code page leaves unmapped.
   */
  predicate DecodesStrictly(cs: Charset, b: seq<byte>) {
    if cs == Utf8 then Utf8WellFormed(b) else Replacement !in Decode(cs, b)
  }

  /** The IOExceptions readStatusFile throws. */
  datatype StatusError = StatusNotFound | Undecodable

  /**
   * readStatusFile: the lines of the log in the chosen charset, or in UTF-8
   * when that charset rejects the bytes.
   */
  function ReadStatus(p: Properties, d: Disk): (r: Result<seq<string>, StatusError>)
    ensures r == Err(StatusNotFound) <==> StatusPath(p) !in d.files
    ensures r == Err(Undecodable) <==> (StatusPath(p) in d.files
      && !DecodesStrictly(StatusCharset(p.configEncoding), d.files[StatusPath(p)])
      && !DecodesStrictly(Utf8, d.files[StatusPath(p)]))
  {
    if StatusPath(p) !in d.files then Err(StatusNotFound)
    else
      var bytes := d.files[StatusPath(p)];
      var charset := StatusCharset(p.configEncoding);
      if DecodesStrictly(charset, bytes) then Ok(ReaderLines(Decode(charset, bytes)))
      else if DecodesStrictly(Utf8, bytes) then Ok(ReaderLines(Decode(Utf8, bytes)))
      else Err(Undecodable)
  }

  /** Without an override, a log written in UTF-8 reads back line for line. */
  lemma ReadUtf8Log(p: Properties, d: Disk, lines: seq<string>)
    requires p.configEncoding.None?
    requires forall k :: 0 <= k < |lines| ==> HasNoLineBreak(lines[k])
    requires StatusPath(p) in d.files && d.files[StatusPath(p)] == Utf8Encode(TerminatedText(lines))
    ensures ReadStatus(p, d) == Ok(lines)
  {
    Utf8RoundTrip(TerminatedText(lines));
    ReaderLinesOfTerminated(lines);
  }

  /** A log that exists is always read when ISO-8859-1 is forced, since it maps every byte. */
  lemma Iso88591LogAlwaysReads(p: Properties, d: Disk)
    requires p.configEncoding.Some? && ForName(Trim(p.configEncoding.value)) == Some(Iso88591)
    requires StatusPath(p) in d.files
    ensures ReadStatus(p, d) == Ok(ReaderLines(Decode(Iso88591, d.files[StatusPath(p)])))
  {
    assert !IsBlank(p.configEncoding.value);
    Iso88591NeverReplaces(d.files[StatusPath(p)]);
  }

  // ---------------------------------------------------------------- one connection line

  /** ClientConnection: who is connected, from where, since when, and for how long. */
  datatype ClientConnection = ClientConnection(clientName: string, clientIp: string, connectedSince: string, duration: string)

  /** The address before the first `:` of `host:port`, or all of it when there is no port. */
  function AddressIp(address: string): (r: string)
    ensures ':' !in r
    ensures StartsWith(address, r)
    ensures r == address || address[|r|] == ':'
  {
    IndexOfChar(address, ':');
    match IndexOf(address, ":")
    case None => address
    case Some(i) => address[..i]
  }

  /** `host:port` gives the host. */
  lemma AddressIpOfHostPort(host: string, port: string)
    requires ':' !in host
    ensures AddressIp(host + ":" + port) == host
  {
    var a := host + ":" + port;
    assert forall k :: 0 <= k < |host| ==> a[k] == host[k];
    assert a[|host|] == ':';
    assert a[..|host|] == host;
  }

  /**
   * parseConnectionLine: at least five comma-separated fields (after trailing
   * empty ones are dropped): the name, the address, two byte counters and the
   * start time, which gives both the Moscow start time and the duration.
   */
  function ParseConnectionLine(line: string, now: int): (r: Option<ClientConnection>)
    ensures r.Some? <==> |SplitOnChar(line, ',')| >= 5
  {
    var parts := SplitOnChar(line, ',');
    if |parts| < 5 then None
    else
      var since := Trim(parts[4]);
      Some(ClientConnection(Trim(parts[0]), AddressIp(Trim(parts[1])), ConvertToMoscowTime(since), CalculateDuration(since, now)))
  }

  /** The record a line of comma-free fields gives. */
  function RecordOfFields(fields: seq<string>, now: int): ClientConnection
    requires |fields| >= 5
  {
    var since := Trim(fields[4]);
    ClientConnection(Trim(fields[0]), AddressIp(Trim(fields[1])), ConvertToMoscowTime(since), CalculateDuration(since, now))
  }

  /**
   * A line of comma-free fields followed by any number of empty fields gives a
   * record exactly when it has at least five non-trailing fields.
   */
  lemma ParseFields(fields: seq<string>, empties: seq<string>, now: int)
    requires fields != [] && fields[|fields| - 1] != []
    requires forall k :: 0 <= k < |fields| ==> ',' !in fields[k]
    requires forall k :: 0 <= k < |empties| ==> empties[k] == []
    ensures ParseConnectionLine(JoinWith(fields + empties, ','), now).Some? <==> |fields| >= 5
    ensures |fields| >= 5 ==> ParseConnectionLine(JoinWith(fields + empties, ','), now) == Some(RecordOfFields(fields, now))
  {
    SplitOfJoin(fields, empties, ',');
  }

  lemma JoinFive(a: string, b: string, c: string, d: string, e: string)
    ensures JoinWith([a, b, c, d, e], ',') == a + "," + b + "," + c + "," + d + "," + e
  {
    var fields := [a, b, c, d, e];
    assert JoinWith(fields[4..], ',') == e;
    assert JoinWith(fields[3..], ',') == d + "," + e;
    assert JoinWith(fields[2..], ',') == c + "," + d + "," + e;
    assert JoinWith(fields[1..], ',') == b + "," + c + "," + d + "," + e;
  }

  lemma HostPortTrimmed(host: string, port: string)
    requires Trim(host) == host && Trim(port) == port
    ensures Trim(host + ":" + port) == host + ":" + port
  {
    var a := host + ":" + port;
    TrimFixedPoint(host);
    TrimFixedPoint(port);
    TrimFixedPoint(a);
    assert a[0] == if host == [] then ':' else host[0];
    assert a[|a| - 1] == if port == [] then ':' else port[|port| - 1];
  }

  /** Connection lines as OpenVPN writes them give the host, the port dropped. */
  lemma ParseOpenVpnRecord(name: string, host: string, port: string, received: string, sent: string, since: string, now: int)
    requires ',' !in name && ',' !in host && ',' !in port && ',' !in received && ',' !in sent && ',' !in since
    requires ':' !in host && Trim(host) == host && Trim(port) == port && since != []
    ensures ParseConnectionLine(name + "," + (host + ":" + port) + "," + received + "," + sent + "," + since, now)
      == Some(ClientConnection(Trim(name), host, ConvertToMoscowTime(Trim(since)), CalculateDuration(Trim(since), now)))
  {
    var address := host + ":" + port;
    var fields := [name, address, received, sent, since];
    assert ',' !in address;
    JoinFive(name, address, received, sent, since);
    assert fields + [] == fields;
    ParseFields(fields, [], now);
    HostPortTrimmed(host, port);
    AddressIpOfHostPort(host, port);
  }

  // ---------------------------------------------------------------- the scan

  const UpdatedPrefix: string := "Updated,"
  const ClientListTitle: string := "OpenVPN CLIENT LIST"
  const RoutingTableTitle: string := "ROUTING TABLE"
  const ClientListHeader: string := "Common Name,Real Address,Bytes Received,Bytes Sent,Connected Since"

  /** What the loop carries from line to line; `stopped` is the `break` at the routing table. */
  datatype ScanState = ScanState(lastUpdate: Option<string>, connections: seq<ClientConnection>, inClientList: bool, stopped: bool)

  const Start: ScanState := ScanState(None, [], false, false)

  /** A trimmed line that names the time of the last update. */
  predicate IsUpdatedLine(line: string) {
    StartsWith(line, UpdatedPrefix)
  }

  /** The Moscow time an `Updated,` line sets (its trimmed remainder, converted). */
  function UpdatedValue(line: string): string
    requires IsUpdatedLine(line)
  {
    ConvertToMoscowTime(Trim(line[|UpdatedPrefix|..]))
  }

  /** A trimmed line the client list would parse as a record. */
  predicate IsRecordLine(line: string) {
    !IsUpdatedLine(line) && line != ClientListTitle && line != RoutingTableTitle && line != ClientListHeader
    && line != [] && ',' in line
  }

  /** The loop body for one line. */
  function Step(st: ScanState, rawLine: string, now: int): ScanState {
    var line := Trim(rawLine);
    if st.stopped then st
    else if IsUpdatedLine(line) then st.(lastUpdate := Some(UpdatedValue(line)))
    else if line == ClientListTitle then st.(inClientList := true)
    else if line == RoutingTableTitle then st.(stopped := true)
    else if line == ClientListHeader then st
    else if st.inClientList && line != [] && ',' in line then
      match ParseConnectionLine(line, now)
      case Some(c) => st.(connections := st.connections + [c])
      case None => st
    else st
  }

  /** The state after the loop has seen `lines`, starting from `st`. */
  function Scan(lines: seq<string>, st: ScanState, now: int): ScanState
    decreases |lines|
  {
    if lines == [] then st else Step(Scan(lines[..|lines| - 1], st, now), lines[|lines| - 1], now)
  }

  /** StatusInfo's content. */
  datatype Status = Status(lastUpdate: Option<string>, connections: seq<ClientConnection>)

  /** parseStatusFile on the lines of the log. */
  function ParseStatus(lines: seq<string>, now: int): Status {
    var st := Scan(lines, Start, now);
    Status(st.lastUpdate, st.connections)
  }

  /** Scanning two pieces in a row is scanning their concatenation. */
  lemma {:induction false} ScanAppend(a: seq<string>, b: seq<string>, st: ScanState, now: int)
    ensures Scan(a + b, st, now) == Scan(b, Scan(a, st, now), now)
    decreases |b|
  {
    if b == [] {
      assert a + b == a;
    } else {
      assert (a + b)[..|a + b| - 1] == a + b[..|b| - 1];
      ScanAppend(a, b[..|b| - 1], st, now);
    }
  }

  /** Once stopped, no line changes anything. */
  lemma {:induction false} StoppedStaysPut(lines: seq<string>, st: ScanState, now: int)
    requires st.stopped
    ensures Scan(lines, st, now) == st
    decreases |lines|
  {
    if lines != [] {
      StoppedStaysPut(lines[..|lines| - 1], st, now);
    }
  }

  lemma TitlesAreNotUpdates()
    ensures !IsUpdatedLine(ClientListTitle) && !IsUpdatedLine(RoutingTableTitle)
  {
    assert ClientListTitle[0] != UpdatedPrefix[0];
    assert RoutingTableTitle[0] != UpdatedPrefix[0];
  }

  /** The scan stops at the first routing-table line: no line after it affects the result. */
  lemma NothingAfterRoutingTable(before: seq<string>, line: string, after: seq<string>, now: int)
    requires Trim(line) == RoutingTableTitle
    ensures ParseStatus(before + [line] + after, now) == ParseStatus(before, now)
  {
    TitlesAreNotUpdates();
    ScanAppend(before + [line], after, Start, now);
    assert (before + [line])[..|before + [line]| - 1] == before;
    var st := Scan(before + [line], Start, now);
    assert st.stopped;
    StoppedStaysPut(after, st, now);
  }

  // ---------------------------------------------------------------- the status scan characterised

  /** Index of the first line whose trimmed text is `title`, or the number of lines. */
  function FirstTitled(lines: seq<string>, title: string): (r: nat)
    ensures r <= |lines|
    ensures forall k :: 0 <= k < r ==> Trim(lines[k]) != title
    ensures r < |lines| ==> Trim(lines[r]) == title
  {
    if lines == [] then 0
    else if Trim(lines[0]) == title then 0
    else 1 + FirstTitled(lines[1..], title)
  }

  /** The value of the last `Updated,` line among `lines`, if any. */
  function LastUpdateIn(lines: seq<string>): Option<string>
    decreases |lines|
  {
    if lines == [] then None
    else if IsUpdatedLine(Trim(lines[|lines| - 1])) then Some(UpdatedValue(Trim(lines[|lines| - 1])))
    else LastUpdateIn(lines[..|lines| - 1])
  }

  /** The record one line contributes inside the client list (none or one). */
  function RecordOf(rawLine: string, now: int): (r: seq<ClientConnection>)
    ensures |r| <= 1
    ensures r != [] ==> IsRecordLine(Trim(rawLine))
  {
    var line := Trim(rawLine);
    if IsRecordLine(line) then
      match ParseConnectionLine(line, now)
      case Some(c) => [c]
      case None => []
    else []
  }

  /** The records of `lines`, in file order. */
  function Records(lines: seq<string>, now: int): seq<ClientConnection>
    decreases |lines|
  {
    if lines == [] then [] else Records(lines[..|lines| - 1], now) + RecordOf(lines[|lines| - 1], now)
  }

  /** One step inside the client list adds the line's record, if any. */
  lemma StepInClientList(st: ScanState, line: string, now: int)
    requires !st.stopped && st.inClientList && Trim(line) != RoutingTableTitle
    ensures Step(st, line, now).connections == st.connections + RecordOf(line, now)
    ensures Step(st, line, now).inClientList && !Step(st, line, now).stopped
  {
    if !IsRecordLine(Trim(line)) {
      assert st.connections + [] == st.connections;
    }
  }

  /** No line of `lines` is `title` once trimmed. */
  predicate NoTitle(lines: seq<string>, title: string) {
    forall k :: 0 <= k < |lines| ==> Trim(lines[k]) != title
  }

  /** A run of lines without a title is still without it. */
  lemma NoTitleOfSlice(lines: seq<string>, title: string, i: nat, j: nat)
    requires NoTitle(lines, title) && i <= j <= |lines|
    ensures NoTitle(lines[i..j], title)
  {
    forall k | 0 <= k < j - i ensures Trim(lines[i..j][k]) != title {
      assert lines[i..j][k] == lines[i + k];
    }
  }

  /** Lines are their prefix followed by the rest. */
  lemma SplitAt(lines: seq<string>, i: nat)
    requires i <= |lines|
    ensures lines == lines[..i] + lines[i..]
  {
  }

  /** Concatenation of records is associative. */
  lemma RecordsAssoc(a: seq<ClientConnection>, b: seq<ClientConnection>, c: seq<ClientConnection>)
    ensures a + b + c == a + (b + c)
  {
  }

  /** Lines with no routing-table title set the last update by the last `Updated,` line and never stop. */
  lemma {:induction false} ScanUpdates(lines: seq<string>, st: ScanState, now: int)
    requires !st.stopped && NoTitle(lines, RoutingTableTitle)
    ensures !Scan(lines, st, now).stopped
    ensures Scan(lines, st, now).lastUpdate == if LastUpdateIn(lines).Some? then LastUpdateIn(lines) else st.lastUpdate
    ensures Scan(lines, st, now).inClientList == (st.inClientList || !NoTitle(lines, ClientListTitle))
    decreases |lines|
  {
    if lines != [] {
      var init := lines[..|lines| - 1];
      NoTitleOfSlice(lines, RoutingTableTitle, 0, |lines| - 1);
      assert forall k :: 0 <= k < |init| ==> init[k] == lines[k];
      ScanUpdates(init, st, now);
      TitlesAreNotUpdates();
      if !NoTitle(lines, ClientListTitle) && NoTitle(init, ClientListTitle) {
        assert Trim(lines[|lines| - 1]) == ClientListTitle;
      }
    }
  }

  /** Inside the client list, with no routing table ahead, every record line is collected in order. */
  lemma {:induction false} ScanCollects(lines: seq<string>, st: ScanState, now: int)
    requires !st.stopped && st.inClientList && NoTitle(lines, RoutingTableTitle)
    ensures Scan(lines, st, now).connections == st.connections + Records(lines, now)
    ensures Scan(lines, st, now).inClientList && !Scan(lines, st, now).stopped
    decreases |lines|
  {
    if lines != [] {
      var init, last := lines[..|lines| - 1], lines[|lines| - 1];
      NoTitleOfSlice(lines, RoutingTableTitle, 0, |lines| - 1);
      ScanCollects(init, st, now);
      var mid := Scan(init, st, now);
      assert Scan(lines, st, now) == Step(mid, last, now);
      StepInClientList(mid, last, now);
      assert Records(lines, now) == Records(init, now) + RecordOf(last, now);
      RecordsAssoc(st.connections, Records(init, now), RecordOf(last, now));
    } else {
      assert st.connections + [] == st.connections;
    }
  }

  /** Outside the client list, with no title ahead, nothing is collected. */
  lemma {:induction false} ScanCollectsNothing(lines: seq<string>, st: ScanState, now: int)
    requires !st.stopped && !st.inClientList
    requires NoTitle(lines, RoutingTableTitle) && NoTitle(lines, ClientListTitle)
    ensures Scan(lines, st, now).connections == st.connections
    ensures !Scan(lines, st, now).inClientList && !Scan(lines, st, now).stopped
    decreases |lines|
  {
    if lines != [] {
      var init := lines[..|lines| - 1];
      NoTitleOfSlice(lines, RoutingTableTitle, 0, |lines| - 1);
      NoTitleOfSlice(lines, ClientListTitle, 0, |lines| - 1);
      ScanCollectsNothing(init, st, now);
    }
  }

  /** The last update of two pieces is the second's, if it has one. */
  lemma {:induction false} LastUpdateAppend(a: seq<string>, b: seq<string>)
    ensures LastUpdateIn(a + b) == if LastUpdateIn(b).Some? then LastUpdateIn(b) else LastUpdateIn(a)
    decreases |b|
  {
    if b == [] {
      assert a + b == a;
    } else {
      assert (a + b)[..|a + b| - 1] == a + b[..|b| - 1];
      LastUpdateAppend(a, b[..|b| - 1]);
    }
  }

  /** The lines before the first routing-table title. */
  function Body(lines: seq<string>): seq<string> {
    lines[..FirstTitled(lines, RoutingTableTitle)]
  }

  /** The records after the first client-list title of the body, or none when there is no such title. */
  function ClientList(body: seq<string>, now: int): seq<ClientConnection> {
    var m := FirstTitled(body, ClientListTitle);
    if m < |body| then Records(body[m + 1..], now) else []
  }

  /** The body of the log ends before any routing-table title. */
  lemma BodyHasNoRoutingTable(lines: seq<string>)
    ensures NoTitle(Body(lines), RoutingTableTitle)
  {
    var b := Body(lines);
    assert forall k :: 0 <= k < |b| ==> b[k] == lines[k];
  }

  /** Up to and including the first client-list title: the last update so far, no records, and the list open. */
  lemma ScanToTitle(body: seq<string>, now: int)
    requires NoTitle(body, RoutingTableTitle)
    requires FirstTitled(body, ClientListTitle) < |body|
    ensures var m := FirstTitled(body, ClientListTitle);
      Scan(body[..m + 1], Start, now) == ScanState(LastUpdateIn(body[..m + 1]), [], true, false)
  {
    var m := FirstTitled(body, ClientListTitle);
    var head := body[..m];
    assert forall k :: 0 <= k < |head| ==> head[k] == body[k];
    ScanCollectsNothing(head, Start, now);
    ScanUpdates(head, Start, now);
    TitlesAreNotUpdates();
    assert body[..m + 1][..m] == head;
  }

  /** Scanning a body with a client-list title: the head sets the update, the tail adds the records. */
  lemma ScanThroughTitle(body: seq<string>, now: int)
    requires NoTitle(body, RoutingTableTitle)
    requires FirstTitled(body, ClientListTitle) < |body|
    ensures var st := Scan(body, Start, now);
      !st.stopped && st.lastUpdate == LastUpdateIn(body) && st.connections == ClientList(body, now)
  {
    var m := FirstTitled(body, ClientListTitle);
    var upToTitle, tail := body[..m + 1], body[m + 1..];
    NoTitleOfSlice(body, RoutingTableTitle, m + 1, |body|);
    assert body[m + 1..|body|] == tail;
    ScanToTitle(body, now);
    var atTitle := Scan(upToTitle, Start, now);
    SplitAt(body, m + 1);
    ScanAppend(upToTitle, tail, Start, now);
    ScanCollects(tail, atTitle, now);
    assert atTitle.connections + Records(tail, now) == Records(tail, now);
    ScanUpdates(tail, atTitle, now);
    LastUpdateAppend(upToTitle, tail);
  }

  /** Scanning a body without a client-list title collects nothing. */
  lemma ScanWithoutTitle(body: seq<string>, now: int)
    requires NoTitle(body, RoutingTableTitle)
    requires FirstTitled(body, ClientListTitle) == |body|
    ensures var st := Scan(body, Start, now);
      !st.stopped && st.lastUpdate == LastUpdateIn(body) && st.connections == ClientList(body, now)
  {
    ScanCollectsNothing(body, Start, now);
    ScanUpdates(body, Start, now);
  }

  /**
   * What parseStatusFile returns: the last update is set by the last `Updated,`
   * line before the routing table, and the connections are the records of the
   * lines between the first client-list title and the routing table, in file
   * order; nothing is collected without the title.
   */
  lemma ParseStatusCharacterised(lines: seq<string>, now: int)
    ensures ParseStatus(lines, now) == Status(LastUpdateIn(Body(lines)), ClientList(Body(lines), now))
  {
    var body := Body(lines);
    BodyHasNoRoutingTable(lines);
    if FirstTitled(body, ClientListTitle) < |body| {
      ScanThroughTitle(body, now);
    } else {
      ScanWithoutTitle(body, now);
    }
    ParseStatusOfBody(lines, now);
  }

  /** The scan reads nothing past the first routing-table title. */
  lemma ParseStatusOfBody(lines: seq<string>, now: int)
    ensures ParseStatus(lines, now) == ParseStatus(Body(lines), now)
  {
    var s := FirstTitled(lines, RoutingTableTitle);
    if s < |lines| {
      SplitAround(lines, s);
      NothingAfterRoutingTable(Body(lines), lines[s], lines[s + 1..], now);
    } else {
      assert Body(lines) == lines;
    }
  }

  lemma SplitAround(lines: seq<string>, i: nat)
    requires i < |lines|
    ensures lines == lines[..i] + [lines[i]] + lines[i + 1..]
  {
  }

  /** Without a client-list title before the routing table there are no connections. */
  lemma NoClientListNoConnections(lines: seq<string>, now: int)
    requires FirstTitled(Body(lines), ClientListTitle) == |Body(lines)|
    ensures ParseStatus(lines, now).connections == []
  {
    ParseStatusCharacterised(lines, now);
  }

  // ---------------------------------------------------------------- the objects

  /** StatusInfo: filled in by the scan. */
  class StatusInfo {
    var lastUpdate: Option<string>
    var connections: seq<ClientConnection>

    function Value(): Status
      reads this
    {
      Status(lastUpdate, connections)
    }

    constructor ()
      ensures Value() == Status(None, [])
    {
      lastUpdate := None;
      connections := [];
    }

    /** setLastUpdate. */
    method SetLastUpdate(u: string)
      modifies this
      ensures Value() == old(Value()).(lastUpdate := Some(u))
    {
      lastUpdate := Some(u);
    }

    /** addConnection. */
    method AddConnection(c: ClientConnection)
      modifies this
      ensures Value() == old(Value()).(connections := old(connections) + [c])
    {
      connections := connections + [c];
    }
  }

  /** The loop of parseStatusFile over the lines already read. */
  method ScanLines(lines: seq<string>, now: int) returns (statusInfo: StatusInfo)
    ensures fresh(statusInfo)
    ensures statusInfo.Value() == ParseStatus(lines, now)
  {
    statusInfo := new StatusInfo();
    var inClientList := false;
    var i := 0;
    while i < |lines|
      invariant 0 <= i <= |lines|
      invariant Scan(lines[..i], Start, now) == ScanState(statusInfo.lastUpdate, statusInfo.connections, inClientList, false)
    {
      assert lines[..i + 1][..i] == lines[..i];
      var line := Trim(lines[i]);
      if IsUpdatedLine(line) {
        statusInfo.SetLastUpdate(ConvertToMoscowTime(Trim(line[|UpdatedPrefix|..])));
      } else if line == ClientListTitle {
        inClientList := true;
      } else if line == RoutingTableTitle {
        assert lines == lines[..i] + [lines[i]] + lines[i + 1..];
        NothingAfterRoutingTable(lines[..i], lines[i], lines[i + 1..], now);
        return;
      } else if line == ClientListHeader {
      } else if inClientList && line != [] && ',' in line {
        var connection := ParseConnectionLine(line, now);
        if connection.Some? {
          statusInfo.AddConnection(connection.value);
        }
      }
      i := i + 1;
    }
    assert lines[..i] == lines;
  }

  /** OpenVpnStatusService over the disk it reads. */
  class StatusService {
    const props: Properties
    const fs: FileSystem

    constructor (props: Properties, fs: FileSystem)
      ensures this.props == props && this.fs == fs
    {
      this.props := props;
      this.fs := fs;
    }

    /** readStatusFile. */
    method ReadStatusFile() returns (r: Result<seq<string>, StatusError>)
      ensures r == ReadStatus(props, fs.State())
    {
      var statusPath := StatusPath(props);
      var present := fs.Exists(statusPath);
      if !present {
        return Err(StatusNotFound);
      }
      var bytes := fs.ReadAllBytes(statusPath);
      var charset := StatusCharset(props.configEncoding);
      if DecodesStrictly(charset, bytes) {
        return Ok(ReaderLines(Decode(charset, bytes)));
      }
      if DecodesStrictly(Utf8, bytes) {
        return Ok(ReaderLines(Decode(Utf8, bytes)));
      }
      return Err(Undecodable);
    }

    /** parseStatusFile, with the clock read once as `now`. */
    method ParseStatusFile(now: int) returns (r: Result<StatusInfo, StatusError>)
      ensures r.Err? ==> ReadStatus(props, fs.State()) == Err(r.error)
      ensures r.Ok? ==> (ReadStatus(props, fs.State()).Ok? && fresh(r.value)
        && r.value.Value() == ParseStatus(ReadStatus(props, fs.State()).value, now))
    {
      var lines := ReadStatusFile();
      if lines.Err? {
        return Err(lines.error);
      }
      var statusInfo := ScanLines(lines.value, now);
      return Ok(statusInfo);
    }
  }
}
