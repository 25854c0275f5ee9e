# Provisioning client for the ESP8266 UART/multicast bridge

A model of `python-scripts/first_try.py`, the host-side script that finds an
ESP8266 bridge on the local network, configures it, and starts listening to its
multicast stream. A run of `main` does three things:

- **Discovery.** It broadcasts the hello text `wifi-serial:\r\n` to
  `192.168.0.255`, port 9999, and reads one reply of at most 1024 bytes. It
  splits the reply on `:`. Field 0 is the control address and field 2 the
  multicast group. Fields 1 and 3 go through `int()` to give the control port
  and the multicast port.
- **Configuration.** It sends four commands, in order, each on a fresh
  stream connection to the control address: `hallo`,
  `+++esp-set-ssid:WLANName`, `+++esp-set-pass:Geheimespasswort` and
  `+++esp-reset:`. Each command goes on the wire followed by `\r\n`, and one
  receive of at most 1024 bytes follows. All four sit in one `try` that
  catches only `socket.timeout`.
- **Listening.** It joins the multicast group on the multicast port.

Sockets are not modelled as such. A run is described by the sequence of socket
operations it attempts (`Net.Event`). What the network does is an input: how
discovery ended (`Discovery.DiscoveryOutcome`) and how each command exchange
ended (`Command.ExchangeOutcome`: a reply, a timeout or another socket error,
each in the connect, send or receive stage).

The modules follow the script:

- `Text` models Python's `str.split`, `str.join` and `str.strip`, and `int()`
  and `str()` on integers.
- `Net` holds the socket operations as values.
- `Discovery` models the constants, `transmitBroadcastUDP`,
  `getInfoOnBroadcastRequest` and the field extraction in `main`.
- `Command` models `sendToServer`.
- `Provisioning` models `main`.

`Provisioning.Provision` is a method that walks the command outcomes, as
`main` does. It is proved equal to the function `Provisioning.Provisioned`,
and the lemmas about the run are stated on that function.

Facts about the code that the model keeps:

- All four commands share one `try`. The first exception ends the block. A
  timeout is caught, and the run goes on to the multicast phase. Any other
  socket error is not caught and ends the run.
- The reply is split as received. `strip()` at line 62 only affects the log
  line. Fields 0 to 3 are read and any later fields are ignored. The parse
  checks no port range. `int()` skips the trailing `\r\n` on the last field.
- Of the ASCII characters, `int()` skips only space, `\t`, `\n`, `\r`, `\v`
  and `\f` around a number. `str.strip()` also removes `\x1c` to `\x1f`, but `int()` rejects
  them.
- A command connection is closed only after a reply. The discovery socket is
  not closed when its receive raises.
- The format-error handler at lines 157-158 only logs, so `main` goes on with
  whatever names were bound. See "## Findings".

## Model

| member | source | states |
|---|---|---|
| Discovery.RequestEvents | python-scripts/first_try.py:10-42 | discovery sends `wifi-serial:\r\n` once to `192.168.0.255` port 9999 and then receives once with a 1024-byte buffer; the trace has exactly these two operations, plus a close exactly when a datagram arrived; no stream operation and no join happen |
| Text.Split | python-scripts/first_try.py:67 | `split(':')` always yields at least one field |
| Text.SplitCount | python-scripts/first_try.py:67 | the split has exactly one more field than the text has separators, so empty fields are kept |
| Text.SplitFieldsHaveNoSeparator | python-scripts/first_try.py:67 | no field contains the separator |
| Text.JoinSplit | python-scripts/first_try.py:67 | joining the fields with `:` gives back the reply exactly: nothing is dropped, reordered or trimmed |
| Text.SplitAtSeparator | python-scripts/first_try.py:67 | a separator splits a text into the fields before it followed by the fields after it |
| Text.SplitWithoutSeparator | python-scripts/first_try.py:67 | text without the separator is a single field |
| Text.SplitJoin | python-scripts/first_try.py:67 | splitting a join of separator-free fields gives the fields back (the other direction of the round trip) |
| Text.StripPadded | python-scripts/first_try.py:62 | `strip()` removes exactly the ASCII whitespace (as `str.isspace()` has it, `\x1c` to `\x1f` included) around a text that neither starts nor ends with it |
| Text.Digits | python-scripts/first_try.py:154 | the decimal writing that `int()` reads, for a natural number, is a non-empty string of digits with no leading zero |
| Text.DigitsValueOfDigits | python-scripts/first_try.py:154 | the digit value of `str(n)` is `n` |
| Text.ParseIntShow | python-scripts/first_try.py:154-156 | `int()` reads back any integer written by `str()`, whatever whitespace `int()` skips surrounds it |
| Text.ParseInt | python-scripts/first_try.py:154-156 | `int()` returns `n` exactly when the text is whitespace it skips, an optional sign, at least one digit and whitespace it skips, with value `n`; every other text is a `ValueError`; an accepted text holds nothing but that whitespace, digits and signs (so `\x1c` to `\x1f` are rejected) |
| Text.ParseIntNeedsDigit | python-scripts/first_try.py:154-156 | a text without a digit (the empty text, a bare sign, whitespace alone) is a `ValueError` |
| Discovery.ParseReplyAccepts | python-scripts/first_try.py:152-158 | a reply parses to `r` exactly when it is the colon-join of at least four colon-free fields whose fields 0 and 2 are `r`'s addresses verbatim and whose fields 1 and 3 `int()` reads as `r`'s ports |
| Discovery.ParseReplyTooFewFields | python-scripts/first_try.py:152-158 | a reply with fewer than three colons (fewer than four fields) is a format error |
| Discovery.ParseReplyIgnoresExtraFields | python-scripts/first_try.py:153-156 | appending more fields to a reply with at least four never changes the result |
| Discovery.ParseReplyRejectsNonNumericPort | python-scripts/first_try.py:154-158 | a port field that is not an integer literal as `int()` reads one (an empty field, a bare sign, `1 2`, a letter) is a format error |
| Discovery.ParseReplyRoundTrip | python-scripts/first_try.py:60-67 | parsing a rendered reply gives the reply back, for every integer port, even with whitespace `int()` skips, such as `\r\n`, after the last field |
| Discovery.Bind | python-scripts/first_try.py:152-156 | the assignments run in order and stop at the first failure: `cl_ip` is field 0; `cl_port` is bound to `int()` of field 1 when there is one and it parses; `mc_group` is bound to field 2 exactly when `cl_port` was bound and field 2 exists; `mc_port` to `int()` of field 3 when `mc_group` was bound and field 3 parses; a name left unbound leaves every later name unbound |
| Discovery.BindAgreesWithParse | python-scripts/first_try.py:152-158 | the field extraction binds all four names exactly when the reply parses, and then binds them to the parsed reply's fields |
| Command.UnframeFrame | python-scripts/first_try.py:128 | dropping the last two characters of a frame gives the message back |
| Command.FrameHasOneTerminator | python-scripts/first_try.py:128 | a message without line breaks goes on the wire with exactly one CR and one LF |
| Command.ExchangeShape | python-scripts/first_try.py:123-133 | whatever the network does, an exchange opens one fresh connection to `(ip, port)` first, sends its own frame at most once and nothing else, receives exactly once if it reaches the receive and never twice, and closes only after a reply |
| Command.SendToServer | python-scripts/first_try.py:123-133 | `sendToServer` attempts the connect, send, receive and close in order, up to and including the step that raises |
| Command.Frame | python-scripts/first_try.py:128 | a command's frame is the message followed by `\r\n`, two characters longer |
| Discovery.GetInfo | python-scripts/first_try.py:54-67 | a non-empty datagram is split into fields that join back to it exactly, one more than its colons; a timeout or an empty datagram gives no fields |
| Discovery.ParseFields | python-scripts/first_try.py:152-158 | fewer than four fields is a format error; a parsed reply takes its addresses verbatim from fields 0 and 2 |
| Discovery.ParseReply | python-scripts/first_try.py:67-158 | a reply that parses has at least three colons, and its addresses hold no colon |
| Provisioning.CommandPhase | python-scripts/first_try.py:164-178 | the command block does something exactly when there are commands, and it starts with a connection to the control address |
| Provisioning.ConfigureAndListen | python-scripts/first_try.py:164-187 | the rest of `main` is the command block followed by one more operation, the join, exactly when it listens |
| Provisioning.Provisioned | python-scripts/first_try.py:143-187 | the corrected `main`: every run starts with the discovery exchange and listens only on a reply that parses |
| Provisioning.ProvisionedAsWritten | python-scripts/first_try.py:143-187 | `main` as written: every run starts with the discovery exchange, and even as written it listens only on a reply that parses |
| Provisioning.FirstNotReplied | python-scripts/first_try.py:164-178 | the index of the first exchange without a reply: all before it were answered |
| Provisioning.ExchangesFacts | python-scripts/first_try.py:164-175 | complete exchanges send their commands' frames in order, close one connection each, and connect only to the control address |
| Provisioning.CommandPhaseFacts | python-scripts/first_try.py:164-178 | the command block sends the frames of the commands before the first exchange that raised, then that command's frame only if its connection was made; it closes one connection per completed exchange and connects only to the control address |
| Provisioning.Provision | python-scripts/first_try.py:143-187 | the corrected `main` (stopping on a malformed reply) produces exactly the run `Provisioned` describes |
| Provisioning.Configure | python-scripts/first_try.py:161-187 | the loop over the four commands, stopping at the first that raises, followed by the join, produces the rest of the run `ConfigureAndListen` describes |
| Provisioning.ConfigureAndListenFacts | python-scripts/first_try.py:164-184 | the rest of `main` sends and closes on streams exactly what the command block does, and connects only to the control address |
| Provisioning.ProvisionSendsInOrder | python-scripts/first_try.py:164-178 | the commands go in order to the reply's control address and port; if command `k` timed out or failed, exactly the commands before it completed and no later command was sent |
| Provisioning.ProvisionAllReplied | python-scripts/first_try.py:164-184 | with every exchange answered, the run sends exactly `hallo\r\n`, `+++esp-set-ssid:WLANName\r\n`, `+++esp-set-pass:Geheimespasswort\r\n` and `+++esp-reset:\r\n`, one `send` each, in that order, and goes on to listen on the reply's group and port |
| Provisioning.CommandFrames | python-scripts/first_try.py:128-175 | the four commands, framed, are exactly those four lines |
| Provisioning.CommandFramesAreSingleLines | python-scripts/first_try.py:128-175 | each framed command holds exactly one CR and one LF |
| Provisioning.ProvisionNeedsReply | python-scripts/first_try.py:143-159 | in the corrected run, a discovery timeout, an empty datagram or a malformed reply ends the run after the discovery exchange, before any connection to the device, and nothing is joined |
| Provisioning.RaisesIffFailureBeforeTimeout | python-scripts/first_try.py:164-178 | the command block raises past its `except` exactly when a command meets a non-timeout error before any command timed out |
| Provisioning.JoinComesLast | python-scripts/first_try.py:164-184 | when the command block does not raise, the join comes after every command operation, as the last operation |
| Provisioning.ProvisionListens | python-scripts/first_try.py:143-187 | the listen phase is reached exactly when the reply parses and no command meets a non-timeout error before the first timeout |
| Provisioning.ProvisionJoinsLast | python-scripts/first_try.py:182-187 | a run that listens joins the reply's group and port, once, as its last operation |
| Provisioning.AsWrittenProvisionsOnTwoFieldReply | python-scripts/first_try.py:152-184 | as written, a reply `ip:port` with no multicast fields still leads to all four commands, the password included, being sent before the run stops on the unbound `mc_group`; the corrected run sends nothing and stops with a format error |
| Provisioning.AsWrittenAgreesOnWellFormedReply | python-scripts/first_try.py:143-187 | when no reply came or the reply parses, the run as written equals the corrected run |
| Provisioning.AsWrittenUsesControlPort | python-scripts/first_try.py:152-178 | as written, once `int()` reads field 1 the run sends and closes what the command block does on field 0 and that port, and connects nowhere else, whatever the later fields hold |
| Provisioning.AsWrittenStopsWithoutControlPort | python-scripts/first_try.py:152-161 | as written, a reply whose field 1 is missing or not an integer stops on the unbound `cl_port` at line 161, right after discovery |

## Left out

- Socket creation, `setsockopt`, `struct.pack`/`inet_aton`, and the real
  effect of `sendto`, `recv`, `connect`, `send` and `close` are left out. Each
  becomes one `Net.Event`, and the network's answers are inputs.
- The `multicastClient` receive loop is left out. It runs forever and only
  logs what it receives. The model ends a run that reaches it with the join
  (`McastJoin`) and `Listening`.
- Byte decoding (`.decode()`, strict UTF-8) is left out. The reply is taken
  as already decoded text. A command reply that is not UTF-8 makes line 135
  raise an uncaught `UnicodeDecodeError` after its connection has closed. No
  `Command.ExchangeOutcome` expresses this, so `ProvisionListens` and
  `ProvisionSendsInOrder` hold only for replies that decode. A discovery
  reply that is not UTF-8 fails the same way at line 60.
- The reply text of a command is left out. It is only logged.
- Logging, the `KeyboardInterrupt` handler and the commented-out
  numpy/matplotlib code are left out.
- A transport error during discovery other than a timeout is left out. The
  code does not catch one either.
- The script never calls `settimeout`, so only the command handler at line
  176 can meet a real timeout: a `connect` that fails with `ETIMEDOUT` raises
  `TimeoutError`, which is the same class as `socket.timeout` from Python 3.10
  on; before 3.10 they are separate classes and even this handler meets no
  real timeout. The discovery `recv` at
  line 39 and the multicast `recv` at line 88 block without a timeout. With
  no reply the script waits at line 39 forever. The model does not capture
  that endless wait. `Discovery.BroadcastTimeout` follows the handler at
  lines 146-148 as written.
- Python 3.11 and later limit `int()` and `str()` to 4300 digits. The model
  leaves this limit out and reads integers of any length. A real reply
  cannot reach the limit, because `recv(1024)` at line 39 keeps at most 1024
  bytes, but `Discovery.Datagram` puts no bound on the text.
- Text.ParseInt: models `int()` on ASCII only. It accepts the six ASCII
  whitespace characters `int()` skips around the number, one optional sign
  and ASCII digits. Underscores between digits, non-ASCII digits and
  non-ASCII whitespace are not modelled.
- Discovery.GetInfo: models an empty datagram, where `transmitBroadcastUDP`
  returns `None` and `None.split` raises, as the stop `NoReplyBytes` rather
  than a crash.
- Provisioning.Provision: like `Provisioning.Provisioned`, stops with
  `WrongFormat` on a malformed reply before any command, which is the
  corrected behaviour. The code as written goes on after the format error.
  That run is `Provisioning.ProvisionedAsWritten`, and it has no method of
  its own.
- Provisioning.Provisioned: models a non-timeout socket error in the command
  block as the stop `CommandFailed(k)` rather than an uncaught exception.
- Provisioning.ProvisionedAsWritten: models reading a name that the field
  extraction left unbound as the stop `NameUnbound` rather than a
  `NameError`.
- The failures of the multicast setup at lines 75-79 are not modelled. A
  `bind` with a port outside 0 to 65535 raises `OverflowError`, and
  `inet_aton` rejects a group that is not an IPv4 address. The model reaches
  `Listening` for any group and port.
- The parse at lines 152-158 checks no port range, but `connect` at line 125
  does. For a control port outside 0 to 65535, negative ports included, it
  raises an `OverflowError` that the handler at line 176 does not catch:
  nothing is sent, the socket from line 124 is not closed, and the run ends.
  The model expresses this only through the outcome `Failed(Connecting)` for
  the first exchange. It does not tie the outcomes to the port. So the lemmas
  that assume `Replied` exchanges, `ProvisionAllReplied` and
  `AsWrittenProvisionsOnTwoFieldReply`, also cover such runs, which cannot
  happen.

## Findings

| source | as written | input that shows it | evidently intended | confidence | as-written member | corrected member |
|---|---|---|---|---|---|---|
| python-scripts/first_try.py:152-184 | the format-error handler only logs, and `main` goes on with the names bound before the failure | the reply `192.168.0.42:80` with every command answered sends all four commands, the Wi-Fi password included, to `192.168.0.42:80`, then raises `NameError` on `mc_group` at line 184 | a malformed reply ends the run before any command is sent | not executed | Provisioning.AsWrittenProvisionsOnTwoFieldReply | Provisioning.ProvisionNeedsReply |
