/** One command exchange (`sendToServer`): a fresh stream connection to the
    device's control address, the framed command sent once, one bounded
    receive, and a close. */
module Command {
  import opened Text
  import opened Net

  /** The size of the single receive that reads a command's reply. */
  const CommandReceiveSize: nat := 1024

  /** The wire form of a command: the message followed by one CR LF. */
  function Frame(msg: string): (frame: string)
    ensures |frame| == |msg| + 2 && frame[..|msg|] == msg && frame[|msg|..] == "\r\n"
  {
    msg + "\r\n"
  }

  function Unframe(frame: string): string
    requires |frame| >= 2
  {
    frame[..|frame| - 2]
  }

  /** Dropping the last two characters of a frame gives the message back. */
  lemma UnframeFrame(msg: string)
    ensures Unframe(Frame(msg)) == msg
  {
  }

  /** A message without line breaks is framed with exactly one CR and one LF,
      the last two characters. */
  lemma FrameHasOneTerminator(msg: string)
    requires '\r' !in msg && '\n' !in msg
    ensures Count(Frame(msg), '\r') == 1 && Count(Frame(msg), '\n') == 1
  {
    CountAppend(msg, "\r\n", '\r');
    CountAppend(msg, "\r\n", '\n');
    CountAbsent(msg, '\r');
    CountAbsent(msg, '\n');
  }

  /** The socket operation during which an exchange stopped. */
  datatype Stage = Connecting | Sending | Receiving

  /** How the network answered one exchange: a reply, a `socket.timeout`, or
      another socket error, in some stage. */
  datatype ExchangeOutcome = Replied | TimedOut(stage: Stage) | Failed(stage: Stage)

  /** The full exchange, in order. */
  function Steps(ip: string, port: int, msg: string): seq<Event>
  {
    [TcpConnect(ip, port), TcpSend(Frame(msg)), TcpRecv(CommandReceiveSize), TcpClose]
  }

  /** How many of the four steps an outcome lets happen: the step that
      raises is attempted, none after it, and only a reply reaches the close. */
  function Reached(o: ExchangeOutcome): nat
  {
    if o.Replied? then 4
    else match o.stage
      case Connecting => 1
      case Sending => 2
      case Receiving => 3
  }

  /** The shape of one exchange whatever the network does: it opens a fresh
      connection to `(ip, port)` first, sends the command's frame at most once
      and nothing else, receives exactly once if it gets that far and never
      twice, and closes the connection only after a reply (no close on the
      error paths). */
  lemma ExchangeShape(ip: string, port: int, msg: string, o: ExchangeOutcome)
    ensures |Steps(ip, port, msg)[..Reached(o)]| >= 1
    ensures Steps(ip, port, msg)[..Reached(o)][0] == TcpConnect(ip, port)
    ensures forall e :: e in Steps(ip, port, msg)[..Reached(o)] ==>
              IsStream(e) && (e.TcpConnect? ==> e == TcpConnect(ip, port)) && (e.TcpRecv? ==> e.max == 1024)
    ensures forall i :: 1 <= i < |Steps(ip, port, msg)[..Reached(o)]| ==> !Steps(ip, port, msg)[..Reached(o)][i].TcpConnect?
    ensures Sends(Steps(ip, port, msg)[..Reached(o)]) == (if o.Replied? || o.stage != Connecting then [Frame(msg)] else [])
    ensures Closes(Steps(ip, port, msg)[..Reached(o)]) == (if o.Replied? then 1 else 0)
    ensures Receives(Steps(ip, port, msg)[..Reached(o)]) == (if o.Replied? || o.stage == Receiving then 1 else 0)
  {
    StepsPrefix(ip, port, msg, Reached(o));
  }

  lemma {:induction false} StepsPrefix(ip: string, port: int, msg: string, n: nat)
    requires n <= 4
    ensures Sends(Steps(ip, port, msg)[..n]) == (if n >= 2 then [Frame(msg)] else [])
    ensures Closes(Steps(ip, port, msg)[..n]) == (if n == 4 then 1 else 0)
    ensures Receives(Steps(ip, port, msg)[..n]) == (if n >= 3 then 1 else 0)
  {
    var s := Steps(ip, port, msg);
    if n > 0 {
      StepsPrefix(ip, port, msg, n - 1);
      assert s[..n] == s[..n - 1] + [s[n - 1]];
      LastEvent(s[..n - 1], s[n - 1]);
    }
  }

  /** `sendToServer(ip, port, msg)` against a network that answers with
      `outcome`: the steps up to the one that raises. */
  method SendToServer(ip: string, port: int, msg: string, outcome: ExchangeOutcome) returns (events: seq<Event>)
    ensures events == Steps(ip, port, msg)[..Reached(outcome)]
  {
    events := [TcpConnect(ip, port)];
    if !outcome.Replied? && outcome.stage == Connecting {
      return;
    }
    var txData := Frame(msg);
    events := events + [TcpSend(txData)];
    if !outcome.Replied? && outcome.stage == Sending {
      return;
    }
    events := events + [TcpRecv(CommandReceiveSize)];
    if !outcome.Replied? {
      return;
    }
    events := events + [TcpClose];
  }
}
