/** The socket operations the script performs, as values. A run of the
    script is described by the sequence of operations it attempts, in order;
    what the network answers is an input to the model, not something it computes. */
module Net {

  datatype Event =
    | UdpSendTo(host: string, port: int, payload: string)  // `sendto` on the broadcast socket
    | UdpRecv(max: nat)                                      // one `recv` on the broadcast socket
    | UdpClose
    | TcpConnect(host: string, port: int)                    // a fresh stream socket and `connect`
    | TcpSend(data: string)
    | TcpRecv(max: nat)
    | TcpClose
    | McastJoin(group: string, port: int)                    // `bind` and `IP_ADD_MEMBERSHIP`

  /** An operation on a stream (command) connection. */
  predicate IsStream(e: Event)
  {
    e.TcpConnect? || e.TcpSend? || e.TcpRecv? || e.TcpClose?
  }

  /** The payloads of the stream sends in a trace, in the order they were attempted. */
  function Sends(trace: seq<Event>): seq<string>
  {
    if trace == [] then []
    else
      var last := trace[|trace| - 1];
      Sends(trace[..|trace| - 1]) + (if last.TcpSend? then [last.data] else [])
  }

  /** The number of stream sockets closed in a trace. */
  function Closes(trace: seq<Event>): nat
  {
    if trace == [] then 0
    else Closes(trace[..|trace| - 1]) + (if trace[|trace| - 1] == TcpClose then 1 else 0)
  }

  /** The number of receives on stream sockets in a trace. */
  function Receives(trace: seq<Event>): nat
  {
    if trace == [] then 0
    else Receives(trace[..|trace| - 1]) + (if trace[|trace| - 1].TcpRecv? then 1 else 0)
  }

  lemma LastEvent(trace: seq<Event>, e: Event)
    ensures Sends(trace + [e]) == Sends(trace) + (if e.TcpSend? then [e.data] else [])
    ensures Closes(trace + [e]) == Closes(trace) + (if e == TcpClose then 1 else 0)
    ensures Receives(trace + [e]) == Receives(trace) + (if e.TcpRecv? then 1 else 0)
  {
    assert (trace + [e])[..|trace|] == trace;
  }

  lemma {:induction false} SendsAppend(a: seq<Event>, b: seq<Event>)
    ensures Sends(a + b) == Sends(a) + Sends(b)
  {
    if b != [] {
      assert (a + b)[..|a + b| - 1] == a + b[..|b| - 1];
      SendsAppend(a, b[..|b| - 1]);
    } else {
      assert a + b == a;
    }
  }

  lemma {:induction false} ClosesAppend(a: seq<Event>, b: seq<Event>)
    ensures Closes(a + b) == Closes(a) + Closes(b)
  {
    if b != [] {
      assert (a + b)[..|a + b| - 1] == a + b[..|b| - 1];
      ClosesAppend(a, b[..|b| - 1]);
    } else {
      assert a + b == a;
    }
  }

  /** A trace without stream operations sends and closes nothing on a stream. */
  lemma {:induction false} NoStreamEvents(trace: seq<Event>)
    requires forall e :: e in trace ==> !IsStream(e)
    ensures Sends(trace) == [] && Closes(trace) == 0
  {
    if trace != [] {
      assert trace[|trace| - 1] in trace;
      assert forall e :: e in trace[..|trace| - 1] ==> e in trace;
      NoStreamEvents(trace[..|trace| - 1]);
    }
  }

  /** Operations that touch no stream connection can be put in front of a
      trace without changing what it sends, closes or connects to. */
  lemma PrefixWithoutStream(a: seq<Event>, b: seq<Event>)
    requires forall e :: e in a ==> !IsStream(e)
    ensures Sends(a + b) == Sends(b) && Closes(a + b) == Closes(b)
    ensures forall e :: e in a + b && IsStream(e) ==> e in b
  {
    NoStreamEvents(a);
    SendsAppend(a, b);
    ClosesAppend(a, b);
  }
}
