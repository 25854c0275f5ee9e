/** Broadcast discovery: the hello datagram sent to the subnet, and the
    colon-separated reply that names the device's control address and its
    multicast stream. */
module Discovery {
  import opened Wrappers
  import opened Text
  import opened Net

  /** The subnet without its last octet. */
  const BroadcastNet: string := "192.168.0."
  const BroadcastPort: int := 9999
  const Hello: string := "wifi-serial:\r\n"
  const ReceiveBufferSize: nat := 1024

  function BroadcastAddress(): string
  {
    BroadcastNet + "255"
  }

  /** The four fields of a discovery reply. Ports are whatever `int()` read:
      the parse checks no range. */
  datatype Reply = Reply(controlIp: string, controlPort: int, multicastGroup: string, multicastPort: int)

  /** What the one `recv` on the broadcast socket produced: a timeout, or a
      datagram (already decoded to text, possibly empty). */
  datatype DiscoveryOutcome = BroadcastTimeout | Datagram(text: string)

  /** What `getInfoOnBroadcastRequest` ends with: the timeout it lets
      through, the empty datagram it cannot split, or the split reply. */
  datatype Info = TimedOut | NoBytes | Fields(fields: seq<string>)

  /** The socket operations of `transmitBroadcastUDP`: one hello to the
      subnet's broadcast address, one bounded receive, and a close that a
      timeout skips. */
  function RequestEvents(o: DiscoveryOutcome): (trace: seq<Event>)
    ensures |trace| == (if o.Datagram? then 3 else 2)
    ensures trace[0] == UdpSendTo("192.168.0.255", 9999, "wifi-serial:\r\n")
    ensures trace[1] == UdpRecv(1024)
    ensures UdpClose in trace <==> o.Datagram?
    ensures forall e :: e in trace ==> !IsStream(e) && !e.McastJoin?
  {
    assert BroadcastAddress() == "192.168.0.255";
    var asked := [UdpSendTo(BroadcastAddress(), BroadcastPort, Hello), UdpRecv(ReceiveBufferSize)];
    if o.BroadcastTimeout? then asked else asked + [UdpClose]
  }

  /** `getInfoOnBroadcastRequest`: the reply is split on `:` as received,
      without stripping; an empty datagram leaves nothing to split. */
  function GetInfo(o: DiscoveryOutcome): (info: Info)
    ensures info.Fields? <==> o.Datagram? && o.text != []
    ensures info.Fields? ==> Join(info.fields, ':') == o.text && |info.fields| == Count(o.text, ':') + 1
  {
    match o
    case BroadcastTimeout => TimedOut
    case Datagram(text) =>
      if text == [] then NoBytes
      else
        JoinSplit(text, ':');
        SplitCount(text, ':');
        Fields(Split(text, ':'))
  }

  /** The field extraction in `main`: field 0 and field 2 verbatim, fields 1
      and 3 through `int()`; a missing field or a non-integer port is a
      format error. Fields after the fourth are not looked at. */
  function ParseFields(fields: seq<string>): (r: Option<Reply>)
    ensures |fields| < 4 ==> r.None?
    ensures r.Some? ==> |fields| >= 4 && r.value.controlIp == fields[0] && r.value.multicastGroup == fields[2]
  {
    if |fields| < 4 then None
    else
      match (ParseInt(fields[1]), ParseInt(fields[3]))
      case (Some(controlPort), Some(multicastPort)) =>
        Some(Reply(fields[0], controlPort, fields[2], multicastPort))
      case _ => None
  }

  /** The reply as `main` reads it; the address fields of a parsed reply
      never hold a colon. */
  function ParseReply(text: string): (r: Option<Reply>)
    ensures r.Some? ==> Count(text, ':') >= 3 && ':' !in r.value.controlIp && ':' !in r.value.multicastGroup
  {
    SplitCount(text, ':');
    SplitFieldsHaveNoSeparator(text, ':');
    ParseFields(Split(text, ':'))
  }

  /** The reply a device sends for `r`: the partner of `ParseReply`. */
  function Render(r: Reply): string
  {
    r.controlIp + ":" + Show(r.controlPort) + ":" + r.multicastGroup + ":" + Show(r.multicastPort)
  }

  /** Colon-free fields, at least four, that carry `r`: the addresses
      verbatim in fields 0 and 2, the ports as `int()` reads fields 1 and 3. */
  predicate ReplyFields(fields: seq<string>, r: Reply)
  {
    && |fields| >= 4
    && (forall i :: 0 <= i < |fields| ==> ':' !in fields[i])
    && fields[0] == r.controlIp && ParseInt(fields[1]) == Some(r.controlPort)
    && fields[2] == r.multicastGroup && ParseInt(fields[3]) == Some(r.multicastPort)
  }

  /** A reply parses to `r` exactly when it is the colon-join of fields that
      carry `r`: whatever follows the fourth field is ignored. */
  lemma ParseReplyAccepts(text: string, r: Reply)
    ensures ParseReply(text) == Some(r) <==> exists fields :: ReplyFields(fields, r) && Join(fields, ':') == text
  {
    if ParseReply(text) == Some(r) {
      var fields := Split(text, ':');
      SplitFieldsHaveNoSeparator(text, ':');
      JoinSplit(text, ':');
      assert ReplyFields(fields, r) && Join(fields, ':') == text;
    }
    if exists fields :: ReplyFields(fields, r) && Join(fields, ':') == text {
      var fields :| ReplyFields(fields, r) && Join(fields, ':') == text;
      SplitJoin(fields, ':');
    }
  }

  /** Fewer than four colon-separated fields is a format error. */
  lemma ParseReplyTooFewFields(text: string)
    requires Count(text, ':') < 3
    ensures ParseReply(text) == None
  {
    SplitCount(text, ':');
  }

  /** Fields after the fourth are ignored: appending more never changes the result. */
  lemma ParseReplyIgnoresExtraFields(text: string, extra: string)
    requires Count(text, ':') >= 3
    ensures ParseReply(text + ":" + extra) == ParseReply(text)
  {
    SplitCount(text, ':');
    SplitAtSeparator(text, extra, ':');
    var fields := Split(text + ":" + extra, ':');
    assert fields[..4] == Split(text, ':')[..4];
  }

  /** A port field that is not a decimal integer literal, as `int()` reads
      one, is a format error: an empty field, a bare sign, two numbers
      separated by a space, a letter. */
  lemma ParseReplyRejectsNonNumericPort(text: string, k: nat)
    requires k == 1 || k == 3
    requires k < |Split(text, ':')|
    requires forall n :: !IntText(Split(text, ':')[k], n)
    ensures ParseReply(text) == None
  {
    assert ParseInt(Split(text, ':')[k]).None?;
  }

  lemma ShowHasNoColon(n: int)
    ensures ':' !in Show(n)
  {
    var d := Digits(if n < 0 then -n else n);
    assert forall i :: 0 <= i < |d| ==> d[i] != ':';
    if n < 0 {
      assert forall i :: 0 <= i < |Show(n)| ==> Show(n)[i] == '-' || Show(n)[i] == d[i - 1];
    }
  }

  /** A rendered reply followed by whitespace is the join of four fields
      without colons. */
  lemma RenderIsJoin(r: Reply, ws: string)
    requires ':' !in r.controlIp && ':' !in r.multicastGroup
    requires AllBlank(ws, IsIntSpace)
    ensures var fields := [r.controlIp, Show(r.controlPort), r.multicastGroup, Show(r.multicastPort) + ws];
      && Join(fields, ':') == Render(r) + ws
      && forall i :: 0 <= i < |fields| ==> ':' !in fields[i]
  {
    var p, q := Show(r.controlPort), Show(r.multicastPort) + ws;
    ShowHasNoColon(r.controlPort);
    ShowHasNoColon(r.multicastPort);
    assert ':' !in q by {
      forall i | 0 <= i < |q| ensures q[i] != ':' {
        if i >= |Show(r.multicastPort)| {
          assert q[i] == ws[i - |Show(r.multicastPort)|];
        }
      }
    }
    var fields := [r.controlIp, p, r.multicastGroup, q];
    assert Join(fields[3..], ':') == q;
    assert Join(fields[2..], ':') == r.multicastGroup + ":" + q;
    assert Join(fields[1..], ':') == p + ":" + r.multicastGroup + ":" + q;
  }

  lemma SplitRendered(r: Reply, ws: string)
    requires ':' !in r.controlIp && ':' !in r.multicastGroup
    requires AllBlank(ws, IsIntSpace)
    ensures Split(Render(r) + ws, ':') == [r.controlIp, Show(r.controlPort), r.multicastGroup, Show(r.multicastPort) + ws]
  {
    RenderIsJoin(r, ws);
    SplitJoin([r.controlIp, Show(r.controlPort), r.multicastGroup, Show(r.multicastPort) + ws], ':');
  }

  lemma ParseShowThenSpace(n: int, ws: string)
    requires AllBlank(ws, IsIntSpace)
    ensures ParseInt(Show(n) + ws) == Some(n)
  {
    var e: string := [];
    assert e + Show(n) + ws == Show(n) + ws;
    ParseIntShow(e, n, ws);
  }

  /** Parsing a rendered reply gives it back, whatever whitespace (such as a
      trailing CR LF) follows it, for every integer port: no range is checked.
      The address fields must be free of colons, or they would split. */
  lemma ParseReplyRoundTrip(r: Reply, ws: string)
    requires ':' !in r.controlIp && ':' !in r.multicastGroup
    requires AllBlank(ws, IsIntSpace)
    ensures ParseReply(Render(r) + ws) == Some(r)
  {
    SplitRendered(r, ws);
    ParseShowThenSpace(r.controlPort, []);
    assert Show(r.controlPort) + [] == Show(r.controlPort);
    ParseShowThenSpace(r.multicastPort, ws);
  }

  /** The names `main` has bound when the field extraction stops: the
      assignments run in order and the first failing one ends the block,
      leaving it and every later name unbound. */
  datatype Bindings = Bindings(clIp: string, clPort: Option<int>, mcGroup: Option<string>, mcPort: Option<int>)

  function Bind(fields: seq<string>): (b: Bindings)
    requires |fields| >= 1
    ensures b.clIp == fields[0]
    ensures b.clPort == (if |fields| >= 2 then ParseInt(fields[1]) else None)
    ensures b.clPort.Some? ==> b.mcGroup == (if |fields| >= 3 then Some(fields[2]) else None)
    ensures b.mcGroup.Some? ==> b.mcPort == (if |fields| >= 4 then ParseInt(fields[3]) else None)
    ensures b.clPort.None? ==> b.mcGroup.None?
    ensures b.mcGroup.None? ==> b.mcPort.None?
  {
    var clPort := if |fields| >= 2 then ParseInt(fields[1]) else None;
    if clPort.None? then Bindings(fields[0], None, None, None)
    else if |fields| < 3 then Bindings(fields[0], clPort, None, None)
    else
      var mcPort := if |fields| >= 4 then ParseInt(fields[3]) else None;
      Bindings(fields[0], clPort, Some(fields[2]), mcPort)
  }

  /** The field extraction succeeds exactly when it binds every name, and
      then binds them to the parsed reply. */
  lemma BindAgreesWithParse(fields: seq<string>)
    requires |fields| >= 1
    ensures ParseFields(fields).Some? <==> Bind(fields).mcPort.Some?
    ensures ParseFields(fields).Some? ==>
      var r := ParseFields(fields).value;
      Bind(fields) == Bindings(r.controlIp, Some(r.controlPort), Some(r.multicastGroup), Some(r.multicastPort))
  {
  }
}
