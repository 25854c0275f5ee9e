/** The provisioning run of `main`: discover the device, send it the four
    configuration commands in order on its control address, then join its
    multicast stream. The network's behaviour is an input: how discovery
    ended and how each command exchange ended. */
module Provisioning {
  import opened Wrappers
  import opened Text
  import opened Net
  import opened Discovery
  import opened Command

  /** The configuration commands, in the order `main` sends them. */
  const Commands: seq<string> :=
    ["hallo", "+++esp-set-ssid:WLANName", "+++esp-set-pass:Geheimespasswort", "+++esp-reset:"]

  /** Why a run ended before the listen phase. */
  datatype Stop =
    | BroadcastTimedOut       // discovery timed out: logged, `main` returns
    | NoReplyBytes            // an empty datagram: nothing to split
    | WrongFormat             // the reply does not give four usable fields
    | CommandFailed(index: nat)  // a socket error other than a timeout in a command exchange
    | NameUnbound(name: string)  // a name the field extraction left unbound is read

  datatype End = Stopped(why: Stop) | Listening(group: string, port: int)

  /** The socket operations a run attempts, in order, and how it ends. */
  datatype RunResult = RunResult(trace: seq<Event>, end: End)

  /** The index of the first exchange that did not end with a reply, or the
      number of exchanges if all did. */
  function FirstNotReplied(outcomes: seq<ExchangeOutcome>): (k: nat)
    ensures k <= |outcomes|
    ensures forall j :: 0 <= j < k ==> outcomes[j].Replied?
    ensures k < |outcomes| ==> !outcomes[k].Replied?
  {
    if outcomes == [] || !outcomes[0].Replied? then 0
    else 1 + FirstNotReplied(outcomes[1..])
  }

  /** The frames of a sequence of commands, in order. */
  function Frames(msgs: seq<string>): seq<string>
  {
    if msgs == [] then [] else Frames(msgs[..|msgs| - 1]) + [Frame(msgs[|msgs| - 1])]
  }

  /** The complete exchanges of a sequence of commands, one after the other. */
  function Exchanges(ip: string, port: int, msgs: seq<string>): seq<Event>
  {
    if msgs == [] then []
    else Exchanges(ip, port, msgs[..|msgs| - 1]) + Steps(ip, port, msgs[|msgs| - 1])
  }

  lemma {:induction false} ExchangesStart(ip: string, port: int, msgs: seq<string>)
    ensures msgs == [] <==> Exchanges(ip, port, msgs) == []
    ensures msgs != [] ==> Exchanges(ip, port, msgs)[0] == TcpConnect(ip, port)
  {
    if msgs != [] {
      ExchangesStart(ip, port, msgs[..|msgs| - 1]);
    }
  }

  /** The `try` block around the commands: they run in order and the first
      one that raises ends the block. */
  function CommandPhase(ip: string, port: int, msgs: seq<string>, outcomes: seq<ExchangeOutcome>): (trace: seq<Event>)
    requires |outcomes| == |msgs|
    ensures trace == [] <==> msgs == []
    ensures msgs != [] ==> trace[0] == TcpConnect(ip, port)
  {
    var k := FirstNotReplied(outcomes);
    ExchangesStart(ip, port, msgs[..k]);
    Exchanges(ip, port, msgs[..k]) + (if k < |msgs| then Steps(ip, port, msgs[k])[..Reached(outcomes[k])] else [])
  }

  /** Whether the command block raises something its `except socket.timeout`
      does not catch. */
  predicate CommandPhaseRaises(outcomes: seq<ExchangeOutcome>)
  {
    var k := FirstNotReplied(outcomes);
    k < |outcomes| && outcomes[k].Failed?
  }

  /** The rest of `main` once the control address is known: the command
      block, then the multicast phase with whatever the field extraction
      bound for the group and its port. */
  function ConfigureAndListen(ip: string, port: int, group: Option<string>, groupPort: Option<int>,
                              outcomes: seq<ExchangeOutcome>): (run: RunResult)
    requires |outcomes| == |Commands|
    ensures CommandPhase(ip, port, Commands, outcomes) <= run.trace
    ensures |run.trace| == |CommandPhase(ip, port, Commands, outcomes)| + (if run.end.Listening? then 1 else 0)
  {
    var commands := CommandPhase(ip, port, Commands, outcomes);
    if CommandPhaseRaises(outcomes) then RunResult(commands, Stopped(CommandFailed(FirstNotReplied(outcomes))))
    else if group.None? then RunResult(commands, Stopped(NameUnbound("mc_group")))
    else if groupPort.None? then RunResult(commands, Stopped(NameUnbound("mc_port")))
    else RunResult(commands + [McastJoin(group.value, groupPort.value)], Listening(group.value, groupPort.value))
  }

  /** A run of `main` in which a malformed reply ends the run before any
      command, as its error message intends. */
  function Provisioned(d: DiscoveryOutcome, outcomes: seq<ExchangeOutcome>): (run: RunResult)
    requires |outcomes| == |Commands|
    ensures RequestEvents(d) <= run.trace
    ensures run.end.Listening? ==> d.Datagram? && ParseReply(d.text).Some?
  {
    var request := RequestEvents(d);
    match GetInfo(d)
    case TimedOut => RunResult(request, Stopped(BroadcastTimedOut))
    case NoBytes => RunResult(request, Stopped(NoReplyBytes))
    case Fields(fields) =>
      match ParseFields(fields)
      case None => RunResult(request, Stopped(WrongFormat))
      case Some(r) =>
        var rest := ConfigureAndListen(r.controlIp, r.controlPort, Some(r.multicastGroup), Some(r.multicastPort), outcomes);
        RunResult(request + rest.trace, rest.end)
  }

  /** A run of `main` as written: a format error is only logged, and the run
      goes on with whatever names the field extraction bound before it failed. */
  function ProvisionedAsWritten(d: DiscoveryOutcome, outcomes: seq<ExchangeOutcome>): (run: RunResult)
    requires |outcomes| == |Commands|
    ensures RequestEvents(d) <= run.trace
    ensures run.end.Listening? ==> d.Datagram? && ParseReply(d.text).Some?
  {
    var request := RequestEvents(d);
    match GetInfo(d)
    case TimedOut => RunResult(request, Stopped(BroadcastTimedOut))
    case NoBytes => RunResult(request, Stopped(NoReplyBytes))
    case Fields(fields) =>
      BindAgreesWithParse(fields);
      var b := Bind(fields);
      if b.clPort.None? then RunResult(request, Stopped(NameUnbound("cl_port")))
      else
        var rest := ConfigureAndListen(b.clIp, b.clPort.value, b.mcGroup, b.mcPort, outcomes);
        RunResult(request + rest.trace, rest.end)
  }

  /** `main`, against a network that ends discovery with `d` and the command
      exchanges with `outcomes`. */
  method Provision(d: DiscoveryOutcome, outcomes: seq<ExchangeOutcome>) returns (trace: seq<Event>, end: End)
    requires |outcomes| == |Commands|
    ensures RunResult(trace, end) == Provisioned(d, outcomes)
  {
    var request := RequestEvents(d);
    var info := GetInfo(d);
    if info.TimedOut? {
      return request, Stopped(BroadcastTimedOut);
    }
    if info.NoBytes? {
      return request, Stopped(NoReplyBytes);
    }
    var reply := ParseFields(info.fields);
    if reply.None? {
      return request, Stopped(WrongFormat);
    }
    var rest, restEnd := Configure(reply.value, outcomes);
    trace, end := request + rest, restEnd;
  }

  /** Lines 164-187 once a reply has been parsed: the four commands to the
      control address, in order, then the multicast phase unless a command
      raised an error other than a timeout. */
  method Configure(r: Reply, outcomes: seq<ExchangeOutcome>) returns (trace: seq<Event>, end: End)
    requires |outcomes| == |Commands|
    ensures RunResult(trace, end)
         == ConfigureAndListen(r.controlIp, r.controlPort, Some(r.multicastGroup), Some(r.multicastPort), outcomes)
  {
    var clIp, clPort := r.controlIp, r.controlPort;
    var mcGroup, mcPort := r.multicastGroup, r.multicastPort;
    trace := [];
    var i := 0;
    while i < |Commands|
      invariant i <= |Commands|
      invariant forall j :: 0 <= j < i ==> outcomes[j].Replied?
      invariant trace == Exchanges(clIp, clPort, Commands[..i])
    {
      var events := SendToServer(clIp, clPort, Commands[i], outcomes[i]);
      assert Commands[..i + 1][..i] == Commands[..i];
      trace := trace + events;
      if !outcomes[i].Replied? {
        assert FirstNotReplied(outcomes) == i;
        if outcomes[i].Failed? {
          end := Stopped(CommandFailed(i));
          return;
        }
        break;
      }
      i := i + 1;
    }
    assert trace == CommandPhase(clIp, clPort, Commands, outcomes);
    trace := trace + [McastJoin(mcGroup, mcPort)];
    end := Listening(mcGroup, mcPort);
  }

  /** Complete exchanges send their commands' frames in order, close one
      connection each, and connect only to `(ip, port)`. */
  lemma {:induction false} ExchangesFacts(ip: string, port: int, msgs: seq<string>)
    ensures Sends(Exchanges(ip, port, msgs)) == Frames(msgs)
    ensures Closes(Exchanges(ip, port, msgs)) == |msgs|
    ensures forall e :: e in Exchanges(ip, port, msgs) ==> IsStream(e) && (e.TcpConnect? ==> e == TcpConnect(ip, port))
  {
    if msgs != [] {
      var last := msgs[|msgs| - 1];
      var prev := Exchanges(ip, port, msgs[..|msgs| - 1]);
      var step := Steps(ip, port, last);
      ExchangesFacts(ip, port, msgs[..|msgs| - 1]);
      ExchangeShape(ip, port, last, Replied);
      assert step[..Reached(Replied)] == step;
      SendsAppend(prev, step);
      ClosesAppend(prev, step);
    }
  }

  /** The command block: the frames of the commands before the first
      exchange that raised, then that command's frame if its send was
      attempted; one close per completed exchange; every connection to the
      control address. */
  lemma CommandPhaseFacts(ip: string, port: int, msgs: seq<string>, outcomes: seq<ExchangeOutcome>)
    requires |outcomes| == |msgs|
    ensures var k := FirstNotReplied(outcomes);
      var trace := CommandPhase(ip, port, msgs, outcomes);
      && Sends(trace) == Frames(msgs[..k])
                         + (if k < |msgs| && outcomes[k].stage != Connecting then [Frame(msgs[k])] else [])
      && Closes(trace) == k
      && forall e :: e in trace ==> IsStream(e) && (e.TcpConnect? ==> e == TcpConnect(ip, port))
  {
    var k := FirstNotReplied(outcomes);
    var done := Exchanges(ip, port, msgs[..k]);
    ExchangesFacts(ip, port, msgs[..k]);
    if k < |msgs| {
      var partial := Steps(ip, port, msgs[k])[..Reached(outcomes[k])];
      ExchangeShape(ip, port, msgs[k], outcomes[k]);
      SendsAppend(done, partial);
      ClosesAppend(done, partial);
    } else {
      assert CommandPhase(ip, port, msgs, outcomes) == done;
    }
  }

  /** A run whose reply parses is the discovery exchange followed by the
      rest of `main` on the reply's addresses. */
  lemma ProvisionedAfterReply(d: DiscoveryOutcome, outcomes: seq<ExchangeOutcome>, r: Reply)
    requires |outcomes| == |Commands|
    requires d.Datagram? && ParseReply(d.text) == Some(r)
    ensures var rest := ConfigureAndListen(r.controlIp, r.controlPort, Some(r.multicastGroup), Some(r.multicastPort), outcomes);
      Provisioned(d, outcomes) == RunResult(RequestEvents(d) + rest.trace, rest.end)
  {
    assert d.text != [];
  }

  /** The rest of `main` sends and closes what the command block does, and
      connects only to the control address. */
  lemma ConfigureAndListenFacts(ip: string, port: int, group: Option<string>, groupPort: Option<int>,
                                outcomes: seq<ExchangeOutcome>)
    requires |outcomes| == |Commands|
    ensures var trace := ConfigureAndListen(ip, port, group, groupPort, outcomes).trace;
      && Sends(trace) == Sends(CommandPhase(ip, port, Commands, outcomes))
      && Closes(trace) == Closes(CommandPhase(ip, port, Commands, outcomes))
      && forall e :: e in trace && e.TcpConnect? ==> e == TcpConnect(ip, port)
  {
    var commands := CommandPhase(ip, port, Commands, outcomes);
    CommandPhaseFacts(ip, port, Commands, outcomes);
    if !CommandPhaseRaises(outcomes) && group.Some? && groupPort.Some? {
      LastEvent(commands, McastJoin(group.value, groupPort.value));
    }
  }

  /** Once a reply parses, the commands go, in order, to its control address
      and port, up to the first exchange that raised: if command `k` timed out
      or failed, exactly the commands before it completed, its own frame was
      sent only if the connection was made, and no later command was sent. */
  lemma ProvisionSendsInOrder(d: DiscoveryOutcome, outcomes: seq<ExchangeOutcome>, r: Reply)
    requires |outcomes| == |Commands|
    requires d.Datagram? && ParseReply(d.text) == Some(r)
    ensures var run := Provisioned(d, outcomes);
      var k := FirstNotReplied(outcomes);
      && Sends(run.trace) == Frames(Commands[..k])
                             + (if k < |Commands| && outcomes[k].stage != Connecting then [Frame(Commands[k])] else [])
      && Closes(run.trace) == k
      && forall e :: e in run.trace && e.TcpConnect? ==> e == TcpConnect(r.controlIp, r.controlPort)
  {
    var rest := ConfigureAndListen(r.controlIp, r.controlPort, Some(r.multicastGroup), Some(r.multicastPort), outcomes);
    ProvisionedAfterReply(d, outcomes, r);
    PrefixWithoutStream(RequestEvents(d), rest.trace);
    ConfigureAndListenFacts(r.controlIp, r.controlPort, Some(r.multicastGroup), Some(r.multicastPort), outcomes);
    CommandPhaseFacts(r.controlIp, r.controlPort, Commands, outcomes);
  }

  /** With every exchange answered, the run sends exactly `hallo`, the
      SSID, the password and the reset command, each as one CR LF terminated
      line (one `send` call each), and goes on to listen. */
  lemma ProvisionAllReplied(d: DiscoveryOutcome, outcomes: seq<ExchangeOutcome>, r: Reply)
    requires |outcomes| == |Commands|
    requires forall j :: 0 <= j < |outcomes| ==> outcomes[j].Replied?
    requires d.Datagram? && ParseReply(d.text) == Some(r)
    ensures Sends(Provisioned(d, outcomes).trace)
         == ["hallo\r\n", "+++esp-set-ssid:WLANName\r\n", "+++esp-set-pass:Geheimespasswort\r\n", "+++esp-reset:\r\n"]
    ensures Provisioned(d, outcomes).end == Listening(r.multicastGroup, r.multicastPort)
  {
    ProvisionSendsInOrder(d, outcomes, r);
    assert FirstNotReplied(outcomes) == |Commands|;
    assert Commands[..|Commands|] == Commands;
    CommandFrames();
    ProvisionedAfterReply(d, outcomes, r);
  }

  lemma CommandFrames()
    ensures Frames(Commands)
         == ["hallo\r\n", "+++esp-set-ssid:WLANName\r\n", "+++esp-set-pass:Geheimespasswort\r\n", "+++esp-reset:\r\n"]
  {
    var c := Commands;
    assert c[..1][..0] == [];
    assert Frames(c[..1]) == [Frame(c[0])];
    assert c[..2][..1] == c[..1];
    assert Frames(c[..2]) == [Frame(c[0]), Frame(c[1])];
    assert c[..3][..2] == c[..2];
    assert Frames(c[..3]) == [Frame(c[0]), Frame(c[1]), Frame(c[2])];
    assert c[..3] == c[..|c| - 1];
    assert Frames(c) == [Frame(c[0]), Frame(c[1]), Frame(c[2]), Frame(c[3])];
    assert Frame(c[0]) == "hallo\r\n";
    assert Frame(c[1]) == "+++esp-set-ssid:WLANName\r\n";
    assert Frame(c[2]) == "+++esp-set-pass:Geheimespasswort\r\n";
    assert Frame(c[3]) == "+++esp-reset:\r\n";
  }

  /** A discovery timeout, an empty datagram or a malformed reply ends the run
      before any connection to the device is made, and nothing is joined. */
  lemma ProvisionNeedsReply(d: DiscoveryOutcome, outcomes: seq<ExchangeOutcome>)
    requires |outcomes| == |Commands|
    requires d.BroadcastTimeout? || ParseReply(d.text).None?
    ensures Provisioned(d, outcomes).trace == RequestEvents(d)
    ensures forall e :: e in Provisioned(d, outcomes).trace ==> !IsStream(e) && !e.McastJoin?
    ensures Provisioned(d, outcomes).end == Stopped(
              if d.BroadcastTimeout? then BroadcastTimedOut
              else if d.text == [] then NoReplyBytes
              else WrongFormat)
  {
  }

  /** The command block raises past its `except` exactly when some command
      meets an error other than a timeout before any command timed out. */
  lemma RaisesIffFailureBeforeTimeout(outcomes: seq<ExchangeOutcome>)
    ensures !CommandPhaseRaises(outcomes) <==>
      forall j :: 0 <= j < |outcomes| && outcomes[j].Failed? ==> exists i :: 0 <= i < j && outcomes[i].TimedOut?
  {
    var k := FirstNotReplied(outcomes);
    if CommandPhaseRaises(outcomes) {
      assert !(exists i :: 0 <= i < k && outcomes[i].TimedOut?);
    } else {
      forall j | 0 <= j < |outcomes| && outcomes[j].Failed?
        ensures exists i :: 0 <= i < j && outcomes[i].TimedOut?
      {
        assert k < j && outcomes[k].TimedOut?;
      }
    }
  }

  /** When the command block does not raise, the rest of `main` joins the
      group after the last command operation, and nowhere else. */
  lemma JoinComesLast(ip: string, port: int, group: string, groupPort: int, outcomes: seq<ExchangeOutcome>)
    requires |outcomes| == |Commands|
    requires !CommandPhaseRaises(outcomes)
    ensures var trace := ConfigureAndListen(ip, port, Some(group), Some(groupPort), outcomes).trace;
      && |trace| >= 1
      && trace[|trace| - 1] == McastJoin(group, groupPort)
      && forall e :: e in trace[..|trace| - 1] ==> IsStream(e)
  {
    var commands := CommandPhase(ip, port, Commands, outcomes);
    CommandPhaseFacts(ip, port, Commands, outcomes);
    var trace := commands + [McastJoin(group, groupPort)];
    assert trace[..|trace| - 1] == commands;
  }

  /** The listen phase is reached exactly when the reply parses and no
      command meets a socket error other than a timeout before the first
      timeout: a timeout ends the command block but is caught. */
  lemma ProvisionListens(d: DiscoveryOutcome, outcomes: seq<ExchangeOutcome>)
    requires |outcomes| == |Commands|
    ensures Provisioned(d, outcomes).end.Listening? <==>
        && d.Datagram? && ParseReply(d.text).Some?
        && forall j :: 0 <= j < |outcomes| && outcomes[j].Failed? ==>
             exists i :: 0 <= i < j && outcomes[i].TimedOut?
  {
    RaisesIffFailureBeforeTimeout(outcomes);
    if d.Datagram? && ParseReply(d.text).Some? {
      ProvisionedAfterReply(d, outcomes, ParseReply(d.text).value);
    } else {
      ProvisionNeedsReply(d, outcomes);
    }
  }

  /** A run that listens joins the reply's multicast group and port, as its
      last operation and only then. */
  lemma ProvisionJoinsLast(d: DiscoveryOutcome, outcomes: seq<ExchangeOutcome>, r: Reply)
    requires |outcomes| == |Commands|
    requires d.Datagram? && ParseReply(d.text) == Some(r)
    requires Provisioned(d, outcomes).end.Listening?
    ensures Provisioned(d, outcomes).end == Listening(r.multicastGroup, r.multicastPort)
    ensures var trace := Provisioned(d, outcomes).trace;
      && |trace| >= 1
      && trace[|trace| - 1] == McastJoin(r.multicastGroup, r.multicastPort)
      && forall e :: e in trace[..|trace| - 1] ==> !e.McastJoin?
  {
    ProvisionedAfterReply(d, outcomes, r);
    var rest := ConfigureAndListen(r.controlIp, r.controlPort, Some(r.multicastGroup), Some(r.multicastPort), outcomes);
    assert rest.end.Listening?;
    assert !CommandPhaseRaises(outcomes);
    JoinComesLast(r.controlIp, r.controlPort, r.multicastGroup, r.multicastPort, outcomes);
    JoinAfterRequest(RequestEvents(d), rest.trace, McastJoin(r.multicastGroup, r.multicastPort));
  }

  lemma JoinAfterRequest(request: seq<Event>, rest: seq<Event>, join: Event)
    requires forall e :: e in request ==> !e.McastJoin?
    requires |rest| >= 1 && rest[|rest| - 1] == join
    requires forall e :: e in rest[..|rest| - 1] ==> IsStream(e)
    ensures var trace := request + rest;
      && trace[|trace| - 1] == join
      && forall e :: e in trace[..|trace| - 1] ==> !e.McastJoin?
  {
    var trace := request + rest;
    assert trace[..|trace| - 1] == request + rest[..|rest| - 1];
    forall e | e in trace[..|trace| - 1] ensures !e.McastJoin? {
      if e !in request {
        assert IsStream(e);
      }
    }
  }

  /** The field extraction of the reply as written: when the control port
      parses but the multicast fields are missing, the run still sends all
      four commands (the password included) to the control address, and only
      then stops on the unbound group. The intended run sends nothing. */
  lemma AsWrittenProvisionsOnTwoFieldReply(ip: string, port: int, outcomes: seq<ExchangeOutcome>)
    requires ':' !in ip
    requires |outcomes| == |Commands|
    requires forall j :: 0 <= j < |outcomes| ==> outcomes[j].Replied?
    ensures var d := Datagram(ip + ":" + Show(port));
      && Sends(ProvisionedAsWritten(d, outcomes).trace) == Frames(Commands)
      && ProvisionedAsWritten(d, outcomes).end == Stopped(NameUnbound("mc_group"))
      && Sends(Provisioned(d, outcomes).trace) == []
      && Provisioned(d, outcomes).end == Stopped(WrongFormat)
  {
    var d := Datagram(ip + ":" + Show(port));
    TwoFieldReply(ip, port);
    var request := RequestEvents(d);
    var commands := CommandPhase(ip, port, Commands, outcomes);
    var run := ProvisionedAsWritten(d, outcomes);
    assert run == RunResult(request + commands, Stopped(NameUnbound("mc_group")));
    assert Sends(run.trace) == Frames(Commands) by {
      CommandPhaseFacts(ip, port, Commands, outcomes);
      assert FirstNotReplied(outcomes) == |Commands|;
      assert Commands[..|Commands|] == Commands;
      NoStreamEvents(request);
      SendsAppend(request, commands);
    }
    NoStreamEvents(request);
  }

  /** A reply of just a control address and a port splits into those two
      fields; the port parses, nothing after it does. */
  lemma TwoFieldReply(ip: string, port: int)
    requires ':' !in ip
    ensures var text := ip + ":" + Show(port);
      && text != []
      && Split(text, ':') == [ip, Show(port)]
      && Bind(Split(text, ':')) == Bindings(ip, Some(port), None, None)
      && ParseReply(text) == None
  {
    var text := ip + ":" + Show(port);
    ShowHasNoColon(port);
    SplitWithoutSeparator(ip, ':');
    SplitWithoutSeparator(Show(port), ':');
    SplitAtSeparator(ip, Show(port), ':');
    var fields := Split(text, ':');
    assert fields == [ip, Show(port)];
    ParseShowThenSpace(port, []);
    assert Show(port) + [] == Show(port);
    assert ParseInt(fields[1]) == Some(port);
  }

  /** As written, once `int()` reads field 1 the run talks to field 0 on
      that port whatever the other fields hold: it sends and closes what the
      command block does there and connects nowhere else. */
  lemma AsWrittenUsesControlPort(d: DiscoveryOutcome, outcomes: seq<ExchangeOutcome>, port: int)
    requires |outcomes| == |Commands|
    requires d.Datagram? && d.text != []
    requires |Split(d.text, ':')| >= 2 && ParseInt(Split(d.text, ':')[1]) == Some(port)
    ensures var ip := Split(d.text, ':')[0];
      var run := ProvisionedAsWritten(d, outcomes);
      && Sends(run.trace) == Sends(CommandPhase(ip, port, Commands, outcomes))
      && Closes(run.trace) == Closes(CommandPhase(ip, port, Commands, outcomes))
      && forall e :: e in run.trace && e.TcpConnect? ==> e == TcpConnect(ip, port)
  {
    var fields := Split(d.text, ':');
    var b := Bind(fields);
    var rest := ConfigureAndListen(fields[0], port, b.mcGroup, b.mcPort, outcomes);
    assert ProvisionedAsWritten(d, outcomes) == RunResult(RequestEvents(d) + rest.trace, rest.end);
    PrefixWithoutStream(RequestEvents(d), rest.trace);
    ConfigureAndListenFacts(fields[0], port, b.mcGroup, b.mcPort, outcomes);
  }

  /** As written, a reply whose field 1 is missing or not an integer stops on
      the unbound `cl_port` right after discovery. */
  lemma AsWrittenStopsWithoutControlPort(d: DiscoveryOutcome, outcomes: seq<ExchangeOutcome>)
    requires |outcomes| == |Commands|
    requires d.Datagram? && d.text != []
    requires |Split(d.text, ':')| < 2 || ParseInt(Split(d.text, ':')[1]).None?
    ensures ProvisionedAsWritten(d, outcomes) == RunResult(RequestEvents(d), Stopped(NameUnbound("cl_port")))
  {
  }

  /** Where the reply parses, or no reply came, the run as written is the
      intended run. */
  lemma AsWrittenAgreesOnWellFormedReply(d: DiscoveryOutcome, outcomes: seq<ExchangeOutcome>)
    requires |outcomes| == |Commands|
    requires d.BroadcastTimeout? || d.text == [] || ParseReply(d.text).Some?
    ensures ProvisionedAsWritten(d, outcomes) == Provisioned(d, outcomes)
  {
    if d.Datagram? && d.text != [] {
      BindAgreesWithParse(Split(d.text, ':'));
    }
  }

  /** Every command is a single line, so each goes on the wire with exactly
      one CR and one LF, at its end. */
  lemma CommandFramesAreSingleLines()
    ensures forall i :: 0 <= i < |Commands| ==>
      Count(Frame(Commands[i]), '\r') == 1 && Count(Frame(Commands[i]), '\n') == 1
  {
    forall i | 0 <= i < |Commands|
      ensures Count(Frame(Commands[i]), '\r') == 1 && Count(Frame(Commands[i]), '\n') == 1
    {
      FrameHasOneTerminator(Commands[i]);
    }
  }
}
