# Verification of iamproxy

A Dafny model of `iamproxy`, a proxy that accepts database logins with cloud identity tokens and
relays the sessions to real backends.  It models the parts of the `iamproxy` package whose correctness
is not visible from one function: the in-memory connection, the wire codecs, the order of the login
steps, the configuration check that keeps identities apart, the canonical query of an AWS token, and
the tables behind tokens, routes and admission.  `dafny verify dfyconfig.toml` checks it.

## How it is modelled

- **In-memory connections.**  `MemBuffer` is the code of `memBuffer`, one lock-held region at a time:
  a class whose methods are proved equal to functions on the fields.  `Stream` runs those functions as
  a step system with any number of goroutines; `Transfer` adds progress, `Pipe` crosses two streams
  into a connection with `Close`, and `Relay` runs the two-pump relay over two connections; `RelayEnd` is
  how that ends.  Runs start in states that are shown to satisfy the invariants (`Stream.InitialInv`,
  `Pipe.InitialInv`, `Transfer.StartInv`, `Relay.FreshRelayBegins`, `Server.IdleInv`).  A replaced
  `changed` channel is the next number, so a captured channel is closed when it is smaller than the
  current one.
- **Codecs.**  `Wire` has a connection with the bytes the peer sends and the number of bytes that
  writes may still put on it, so that every point of failure is covered.  `MySqlFrames`,
  `MySqlHandshake` and `PgWire` are the readers and writers of `mysql.go` and `postgres.go`, each
  proved to accept exactly what its format describes.
- **Sessions.**  `Addresses` splits and joins hosts and ports as Go does; `Sessions` runs the
  handlers of both engines for all clients at once, with the shared cancel registry and a log of what
  happened.  `SessionRuns` says what clients must send to get through them.
- **Configuration and identity.**  `Config` is the check as the code does it; `ConfigVerdict` says what
  it decides; `Identity` carries that through binding ports and any run of token issues and logins.
- **AWS tokens.**  `AwsCanonical` and `AwsToken`: encoding, sorting, the query, and what a signature
  covers.
- **Tables.**  `ImdsTokens` and `Server`: the pruned token table, the dial routes, the accept loop.

Foreign calls are parameters: address parsing, lower-casing, URL and time parsing, hashing, HMAC, JWT
decoding, random text, clocks.  Every statement holds for all of them; where a proof needs more, the
lemma asks for it (`AwsToken.Digests`, `ImdsTokens.Monotone`).

## What turned out not to hold, and what holds instead

- The configuration check does not decide the pairwise specification for all names: a listener `a` and
  a listener `a\0b` make it refuse principals that share nothing.  `ConfigVerdict.CheckIsExactIff`
  gives the exact condition; names without NUL are always fine.
- The query of an AWS token is not always in SigV4 order: the code sorts joined `k=v` strings, so key
  `a1` comes before key `a`.  `AwsCanonical.CanonicalIsSigV4Iff` gives the exact condition.
- The NUL-terminated password layout of the MySQL handshake is parsed but never accepted
  (`MySqlHandshake.ParsedIsLaidOut`).
- Cancelling depends on distinct backend keys: a session that ends takes the registration of another
  live one with it exactly when they share a key (`Sessions.EndingSparesOthersIff`, with the run in
  `SessionRuns.ALiveSessionIsLost`).
- A PostgreSQL login does not always dial the upstream as configured, while a cancel request does: the host
  and the parsed port are joined again.  `Sessions.LoginDialsUpstreamIff` gives the exact condition.
- A token can expire while the loop that prunes the table runs, and stay: `ImdsTokens.StoredIsUnexpiredIff`
  says exactly when, `ImdsTokens.AnExpiryMeanwhile` gives an instance.
- The 256 slots bound running sessions, not open connections: a slot is given back before the
  connection is closed.  `Server.MoreThanSlotsOpen` is a run with 257 open connections, and
  `Server.WithinIffGuarded` says exactly which runs keep to 256.

## Model

| member | source | states |
|---|---|---|
| MemBuffer.MemBuf.Read | iamproxy/memconn.go:58-81 | One lock-held region of `read`: the buffer and the outcome (bytes, which error, or parked on which channel with which deadline) for every order of the five tests and both clock readings; a region that fails or parks leaves the buffer as it was. |
| MemBuffer.MemBuf.Write | iamproxy/memconn.go:83-109 | The loop of `write` up to its return or its wait, resumed at any count: what was appended, the count returned, and which of the three errors ends it, including a deadline that passes between the iterations. |
| MemBuffer.MemBuf.CloseRead | iamproxy/memconn.go:111-116 | The read side closes, nothing else changes, and every waiter is woken. |
| MemBuffer.MemBuf.CloseWrite | iamproxy/memconn.go:111-116 | The write side closes, nothing else changes, and every waiter is woken. |
| MemBuffer.MemBuf.SetReadDeadline | iamproxy/memconn.go:154-157 | Only the read deadline changes, and every waiter is woken. |
| MemBuffer.MemBuf.SetWriteDeadline | iamproxy/memconn.go:159-162 | Only the write deadline changes, and every waiter is woken. |
| Stream.StepKeepsInv | iamproxy/memconn.go:14-116 | Every step of any number of readers, writers, closers and deadline setters (a lock-held region, a wakeup, a timer) keeps the invariant: no lost wakeup, first in first out, end of file means empty, every call counts exactly what it appended, no call is shared. |
| Stream.ParkedIsBlocked | iamproxy/memconn.go:33-54 | No lost wakeup: in every reachable state a goroutine parked on the current channel would, if it ran its region now, change nothing and park again on the same channel with the same deadline. |
| Stream.ReaderOrWriterMoves | iamproxy/memconn.go:58-109 | No deadlock: with a reader and a writer of one buffer in progress, one of the two can step. |
| Stream.StreamIntegrity | iamproxy/memconn.go:58-109 | In every reachable state delivered bytes followed by buffered bytes are the accepted bytes in order, at most 2^20 are buffered, and each write call, finished or cut short, has appended exactly the prefix of its payload that it counts. |
| Stream.WriteEndsExactly | iamproxy/memconn.go:83-109 | What a region of a write does, from the flags, the deadline, the room and the clock alone: net.ErrClosed if and only if its own end is closed, io.ErrClosedPipe if and only if only the reading end is, deadline exceeded, complete or parked if and only if neither is and the deadline and the 2^20 bytes say so; and how much it appends. |
| Stream.ReadEndsExactly | iamproxy/memconn.go:58-81 | What a region of a read does, from the same. |
| Stream.WaitsEndExactly | iamproxy/memconn.go:33-54 | A wait ends by its channel if and only if that has been replaced, and by its timer if and only if the captured deadline has passed; then the call returns, a write with deadline exceeded and what it had appended, and nothing else changes. |
| Stream.RunIsLater | iamproxy/memconn.go:58-116 | Over any run flags only rise, delivered and accepted streams only grow at their ends, nothing is accepted after either side has closed, and finished calls never change. |
| Stream.EofIsFinal | iamproxy/memconn.go:74-76 | Once a read has returned io.EOF all accepted bytes had been read, and no byte is accepted or read after it. |
| Stream.CloseWriteFixesTheRest | iamproxy/memconn.go:74-76 | After the writing side closes, later reads get exactly the bytes that were buffered, in order. |
| Stream.OneWriterIsReadInOrder | iamproxy/memconn.go:58-109 | With one writing goroutine, and any readers and closers, what is read is a prefix of what its calls count as written, call after call. |
| Transfer.EveryStepDescends | iamproxy/memconn.go:58-109 | With one writer, one reader of non-empty buffers and no closes or deadlines, every step lowers one measure built on 2*(bytes unwritten)+(bytes buffered), whatever the scheduling. |
| Transfer.StuckMeansDelivered | iamproxy/memconn.go:58-109 | If neither of them can step, the write has returned complete and the whole payload has been read. |
| Transfer.TransferCompletes | iamproxy/memconn.go:58-109 | A write of any length completes: no schedule is longer than 8*length+3 steps, and one that cannot be extended has delivered the payload. |
| Pipe.StepKeepsInv | iamproxy/memconn.go:130-147 | The two buffers keep their invariants and their close flags follow the progress of Close at the two ends, with anything between its two updates. |
| Pipe.RunIsLater | iamproxy/memconn.go:130-147 | Over any run both streams only grow and a closed end stays closed. |
| Pipe.CloseReleasesEveryone | iamproxy/memconn.go:141-147 | When Close has returned, every goroutine parked on either buffer, at either end, has been signalled. |
| Pipe.CloseFixesBothStreams | iamproxy/memconn.go:141-147 | After an end has closed no byte is accepted in either direction, and delivered plus buffered bytes towards the peer never change. |
| Pipe.EofOnlyAtTheEnd | iamproxy/memconn.go:74-76 | io.EOF reaches an end only after its peer has fully closed and every accepted byte has been read. |
| Pipe.DrainThenEof | iamproxy/memconn.go:58-81 | Reading a write-closed buffer again and again gives exactly the buffered bytes and then io.EOF. |
| Pipe.PeerDrainsThenEof | iamproxy/memconn.go:141-147 | In every run the peer of a closed end reads exactly what is still buffered and then io.EOF, unless it has begun to close itself or its read deadline has passed, with the error in each case. |
| Pipe.WriteAfterClose | iamproxy/memconn.go:88-93 | In every run a write with bytes left appends nothing and ends with net.ErrClosed once its own end is shut, and with io.ErrClosedPipe once only the peer has begun to close. |
| Relay.StepKeepsInv | iamproxy/mysql.go:271-305 | Every interleaving of the two pumps, the caller and strangers on both connections keeps the protocol: each pump is inside the one buffer its phase names, also when the pump that reads the client answers it on the buffer that the other one writes; tokens sent are pumps stopped; and the ends closed are those the caller has reached. |
| Relay.CallsStayInTheirLane | iamproxy/mysql.go:271-305 | The pump forth reads what the client wrote, writes to the backend and answers to the client; the pump home reads what the backend wrote and writes to the client; neither is ever inside another buffer. |
| Relay.ReturnsWhenBothStopped | iamproxy/server.go:356-364 | The relay returns only when both pumps have stopped and both its ends are closed. |
| Relay.ClosesOnlyAfterAStop | iamproxy/server.go:356-364 | No connection is closed by the relay before one pump has stopped by itself. |
| RelayEnd.AStopClosesBoth | iamproxy/server.go:356-364 | Once either pump has stopped, five steps of the caller close both connections, whatever the other pump and strangers do in between, and each is possible as soon as the one before is done. |
| RelayEnd.RelayIsNeverStuck | iamproxy/mysql.go:271-305 | Once one pump has stopped, the relay can always step until it has returned: the caller is never blocked for good, and a pump parked in Read, in Write or in the Write of a refusal is always released. |
| RelayEnd.ClosedRelayWindsDown | iamproxy/mysql.go:271-305 | After both closes every step of the relay lowers a measure that steps of strangers leave alone; a refusal that fails is followed by one more read, which fails. |
| RelayEnd.ClosedRelayReturns | iamproxy/server.go:356-364 | However strangers interleave, a relay that has closed both connections has returned after four of its own steps. |
| Wire.Conn.ReadFull | iamproxy/mysql.go:21-23 | io.ReadFull: exactly n bytes, or an error that has used up the stream. |
| Wire.Conn.Write | iamproxy/mysql.go:38-42 | A write delivers the prefix that fits and fails exactly when that is not all. |
| Wire.LittleEndianRoundTrip | iamproxy/mysql.go:71-81 | Decoding an encoded number gives it back, for every width it fits in; so it does in network order. |
| Wire.FromLittleEndianRoundTrip | iamproxy/mysql.go:71-81 | Every byte string is the encoding of what it decodes to. |
| Wire.LittleEndianAt | iamproxy/mysql.go:24-37 | Byte i of an encoded number is its digit i to the base 256. |
| Wire.BigEndianAt | iamproxy/postgres.go:22 | The same for network order, from the other end. |
| MySqlFrames.MyRead | iamproxy/mysql.go:19-31 | myRead on any stream: the packet, the size refusal or the short read, and what it leaves unread. |
| MySqlFrames.MyWrite | iamproxy/mysql.go:33-43 | Two writes put exactly the frame on the wire, cut where the connection fails; an oversized packet writes nothing. |
| MySqlFrames.PacketRoundTrip | iamproxy/mysql.go:19-43 | Whatever follows it, a frame is read back with payload, sequence byte and leftover exactly when its payload is at most 2^20 bytes, and refused otherwise. |
| MySqlFrames.PacketIsExact | iamproxy/mysql.go:19-43 | A packet is read if and only if the stream starts with its length in three bytes, least significant first, its sequence number and its payload of at most 2^20 bytes. |
| MySqlFrames.PacketsRoundTrip | iamproxy/mysql.go:19-43 | Any sequence of written packets is read back in order with the rest of the stream intact. |
| MySqlFrames.ParseEncoded | iamproxy/mysql.go:274-287 | Frames followed by anything parse to themselves followed by what the rest parses to. |
| MySqlFrames.EncodeParsed | iamproxy/mysql.go:274-287 | What any stream parses to re-encodes to the stream, up to an incomplete frame. |
| MySqlFrames.ParseCut | iamproxy/mysql.go:274-287 | A stream of frames cut anywhere parses to the first of them. |
| MySqlFrames.RelayFrame | iamproxy/mysql.go:275-297 | One turn of the relay loop: ends on an incomplete frame, refuses a change-user frame to the client only, or forwards the frame unchanged. |
| MySqlFrames.RelayFrames | iamproxy/mysql.go:274-300 | For every client stream and every point at which either connection fails: the backend gets exactly the encoding of the complete frames in order without the change-user ones, as far as its writes succeed; and if they all do, the client is refused once for each dropped frame. |
| MySqlFrames.KeepOne | iamproxy/mysql.go:288-291 | A frame is dropped if and only if its number is 0 and its first byte 0x11. |
| MySqlFrames.KeepConcat | iamproxy/mysql.go:275-297 | What is kept is decided frame by frame, in order. |
| MySqlFrames.BackendSeesKeptFrames | iamproxy/mysql.go:288-297 | The bytes that reached the backend parse to the first of the kept frames, all of them if no write failed; no change-user frame passes. |
| MySqlFrames.OtherwiseTransparent | iamproxy/mysql.go:274-297 | A client that never changes user is relayed byte for byte up to an incomplete frame. |
| MySqlHandshake.MyCString | iamproxy/mysql.go:51-60 | The scan splits at the first NUL, or reports that there is none. |
| MySqlHandshake.LenencOfCanonical | iamproxy/mysql.go:62-89 | myLenenc inverts the canonical length encoding below 2^24, leaving the rest, and refuses every canonical encoding from 2^24 on. |
| MySqlHandshake.LenencIsExact | iamproxy/mysql.go:62-89 | A length is read if and only if it is one byte that is no marker, or a marker and 2, 3 or 8 bytes, the last only up to 2^20; and what follows is left. |
| MySqlHandshake.MyHandshakeResponse | iamproxy/mysql.go:91-153 | The parser with its three password layouts computes the declared parse on every input, with no access out of bounds. |
| MySqlHandshake.MyPassword | iamproxy/mysql.go:105-152 | The part from the password length on. |
| MySqlHandshake.HasIsFlag | iamproxy/mysql.go:96 | The test of a capability reads exactly its bit: the capabilities are an odd multiple of the flag and less than the flag besides. |
| MySqlHandshake.ParseLayout | iamproxy/mysql.go:91-153 | Everything laid out in one of the two length-prefixed layouts (32 header bytes, NUL-free user, length, NUL-free password and NUL, optional database, `mysql_clear_password`, any tail) parses back to its fields. |
| MySqlHandshake.ParsedIsLaidOut | iamproxy/mysql.go:91-153 | Everything accepted is laid out so; in particular it is in one of the length-prefixed layouts. |
| MySqlHandshake.ParseIsExact | iamproxy/mysql.go:91-153 | Accepted with given fields if and only if laid out with those fields, in a layout that depends on the bits of the capabilities. |
| PgWire.PgWrite | iamproxy/postgres.go:19-26 | The message is built in a buffer and sent in one write: type, length including itself, body, cut where the connection fails. |
| PgWire.PgPassword | iamproxy/postgres.go:95-115 | pgPassword on any stream: every refusal, the password, and what it leaves unread. |
| PgWire.PasswordIsExact | iamproxy/postgres.go:95-115 | A password is returned if and only if the stream starts with the message that pgWrite sends for it and its NUL, within the limit; the rest is left on the stream. |
| PgWire.FillMap | iamproxy/postgres.go:84-91 | The loop over fields builds the last-wins map, or refuses an empty key. |
| PgWire.LastWinsIs | iamproxy/postgres.go:84-91 | The map gives a key the value of the last pair with that key, and has no other keys. |
| PgWire.PgParams | iamproxy/postgres.go:74-91 | The checks around the split, on every parameter block. |
| PgWire.ParamsAreExact | iamproxy/postgres.go:74-91 | A block is accepted with map m if and only if it spells, closed or left open, some list of non-empty NUL-free keys and NUL-free values whose last-wins map is m. |
| PgWire.PgStartup | iamproxy/postgres.go:33-93 | The startup loop on any stream and any failing connection: the map, the unread rest, one `N` per GSS request, and termination because every round uses up eight bytes. |
| PgWire.ReadBody | iamproxy/postgres.go:54-91 | The branches that return. |
| PgWire.GssIsAnswered | iamproxy/postgres.go:44-53 | Any number of GSS requests is answered one for one and changes nothing else. |
| PgWire.StartupRoundTrip | iamproxy/postgres.go:33-93 | Any number of GSS requests followed by a packet spelling any parameters within the limit gives the last-wins map and leaves the stream at the end of the packet. |
| PgWire.CancelRoundTrip | iamproxy/postgres.go:54-63 | Any number of GSS requests followed by a cancel request gives its eight bytes. |
| PgWire.RequestsOnTheWire | iamproxy/postgres.go:37-67 | The requests byte for byte: lengths, codes and protocol version. |
| PgWire.StartupIsExact | iamproxy/postgres.go:33-93 | pgStartup returns m after k replies with `rest` unread if and only if the stream is k answerable GSS requests followed by a cancel request, an SSL request or a packet spelling m, followed by `rest`. |
| Addresses.SplitIsExact | iamproxy/postgres.go:190-193 | An address is split into host and port if and only if it is a bare host without colons, or a bracketed host, then a colon and a port, with no other brackets. |
| Addresses.LoginTargetIsExact | iamproxy/postgres.go:190-197 | A login has a target if and only if the upstream is a host, bare or in brackets, a colon and a number from 1 to 65535, perhaps with a plus sign and leading zeros. |
| Addresses.JoinOfSplit | iamproxy/postgres.go:190-203 | Joining what was split restores the address if and only if brackets were only put around a host with a colon. |
| Addresses.SpelledAsConfiguredIff | iamproxy/postgres.go:190-203 | What the PostgreSQL driver dials for an upstream is the upstream if and only if the port has no sign and no leading zero and the host no needless brackets. |
| Addresses.ByTcpIsExact | iamproxy/postgres.go:202-214 | Which hosts keep their name when dialed: those that are no socket path and no host and port themselves. |
| Addresses.ARespelledUpstream | iamproxy/postgres.go:194-203 | The upstream `db:05432` is dialed as `db:5432`. |
| Sessions.StepKeepsInv | iamproxy/postgres.go:134-299 | Every step of any number of interleaved sessions of both engines keeps the invariant over phases, log and cancel registry. |
| Sessions.EventsAreOrdered | iamproxy/postgres.go:134-276 | In every run each logged event has what it needs before it: TLS before a password, a password before acceptance, acceptance before a login dial, which goes to the target of the session, that is to the upstream or to its host and parsed port joined again; a registered live key before a cancel dial, which goes to the upstream as configured; equal framing flags before a MySQL relay. |
| Sessions.DialFollowsTheWholeLogin | iamproxy/mysql.go:155-252 | Before every login dial stand, in this order and for one session and one user, TLS, the password and its acceptance. |
| Sessions.LoginDialsUpstreamIff | iamproxy/postgres.go:190-215 | A login dials the configured upstream, as cancel requests do, if and only if the engine is MySQL or the upstream is spelled plainly. |
| Sessions.RegistryKeyIsInjective | iamproxy/postgres.go:270-271 | Listener name and key cannot run into each other, because keys have one length. |
| Sessions.HitHasOwner | iamproxy/postgres.go:286-289 | A registry hit means a session of that very listener that has stored the key and not deleted it. |
| Sessions.KeyDataIs | iamproxy/postgres.go:261-263 | The key of a session is the process number of its backend, most significant byte first, and then the secret. |
| Sessions.CancelIffLive | iamproxy/postgres.go:278-299 | While live keys are distinct, a cancel is forwarded if and only if a live session of the same listener has the process number and the secret that it names, and then to the upstream of that listener. |
| Sessions.EndingSparesOthersIff | iamproxy/postgres.go:271-272 | When a session ends, the other live sessions stay cancellable if and only if none of them shares its key. |
| Sessions.CancelIsForwardedVerbatim | iamproxy/postgres.go:278-299 | The forwarded request is the one the client sent, on a plain and on a TLS connection, after any GSS requests. |
| Sessions.ReplicationIsNormal | iamproxy/postgres.go:117-130 | The replication mode does not depend on case, and the normalised mode is read back as itself. |
| Sessions.ReplicationIsExact | iamproxy/postgres.go:120-130 | Which values select which replication mode, in any case of letters; any other is refused. |
| SessionRuns.PgFirstIsExact | iamproxy/postgres.go:136-146 | A PostgreSQL client gets to TLS if and only if its stream is what pgStartup reads as an SSL request, and as no cancel request. |
| SessionRuns.PgCancelIsExact | iamproxy/postgres.go:140-162 | Before TLS and inside it, the session cancels with given bytes if and only if that is what pgStartup reads. |
| SessionRuns.PgSecondIsExact | iamproxy/postgres.go:155-177 | Inside TLS a client is asked for a password if and only if its parameters name a user and a replication mode, if any, that is known. |
| SessionRuns.MyFirstIsExact | iamproxy/mysql.go:180-187 | A MySQL client gets to TLS if and only if its first packet has number 1, 32 bytes and the SSL flag. |
| SessionRuns.MySecondIsExact | iamproxy/mysql.go:193-204 | Inside TLS its login is checked if and only if its packet has number 2 and is laid out as a handshake response with that user and password. |
| SessionRuns.MySqlLoginRelaysIff | iamproxy/mysql.go:155-252 | A MySQL client that does so, whose login is granted and whose backend answers, is relayed if and only if both agree on the five framing flags. |
| SessionRuns.ALiveSessionIsLost | iamproxy/postgres.go:270-289 | The failing run, for any PostgreSQL listener and any key: two sessions with one key log in, the first ends, and a cancel request for the live one is dropped. |
| Config.Config.Validate | iamproxy/config.go:87-201 | The default endpoint is filled in, nothing else changes, and the verdict is the conjunction of the endpoint, listener, principal and key conditions. |
| Config.CheckListeners | iamproxy/config.go:103-141 | The listener loop with its two sets decides field conditions and pairwise difference of names and fixed-port addresses. |
| Config.CheckPrincipals | iamproxy/config.go:142-199 | The principal loop decides the conditions on each, pairwise difference of ids and access keys, and that no recorded key belongs to two principals. |
| Config.GoogleUsernameIs | iamproxy/identity.go:85-91 | A lowered email goes by a username if and only if, for MySQL, the username has no `@` and is the email or what comes before its first `@`; otherwise, if the email is the username and the suffix of service accounts, or is the username and lacks the suffix. |
| Config.LoopbackIs | iamproxy/config.go:216-226 | An address is local if and only if its host is localhost or a loopback IP. |
| Config.CheckGrants | iamproxy/config.go:168-198 | The grant loop fails only on a bad grant or a real conflict and otherwise records every claim. |
| Config.CheckGrant | iamproxy/config.go:168-198 | One grant: its conditions and its claims in the three maps. |
| Config.Record | iamproxy/config.go:174-177 | One conflict test and store: succeeds if and only if the recorded claims stay a function. |
| Config.SharedKeyIff | iamproxy/config.go:173-197 | The three maps are functions if and only if no recorded key belongs to principals of two ids. |
| ConfigVerdict.AcceptedIsValid | iamproxy/config.go:87-201 | Whatever the names, an accepted configuration meets the pairwise specification: on one listener, principals with one backend user, Google name or Azure email are one principal. |
| ConfigVerdict.ValidIsAccepted | iamproxy/config.go:87-201 | When no listener name goes on, after a NUL, to another, everything that meets the specification is accepted. |
| ConfigVerdict.ConfusedIsRejected | iamproxy/config.go:173-177 | When one does, two principals that share nothing are rejected. |
| ConfigVerdict.CheckIsExactIff | iamproxy/config.go:87-201 | For given good listeners the check decides the specification on all lists of principals if and only if no listener name goes on, after a NUL, to another. |
| ConfigVerdict.NulFreeNamesDoNotExtend | iamproxy/config.go:173-193 | Names without NUL never do. |
| ConfigVerdict.VerdictIgnoresOrder | iamproxy/config.go:111-199 | The verdict is the same for every order of listeners and principals. |
| ConfigVerdict.CheckTwice | iamproxy/config.go:87-90 | Checking again changes nothing and gives the same verdict. |
| AwsCanonical.AwsEncode | iamproxy/aws.go:24-37 | The loop over bytes computes the percent-encoding: the string itself if and only if it has only letters, digits and `-._~`, and two bytes more for each other byte. |
| AwsCanonical.DecodeEncode | iamproxy/aws.go:24-37 | Percent-decoding (section 2.1 of RFC 3986) gives every byte string back. |
| AwsCanonical.EncodeOne | iamproxy/aws.go:24-37 | A letter, a digit or one of `-._~` (section 2.3 of RFC 3986) stays; every other byte becomes a percent sign and two upper-case digits. |
| AwsCanonical.EncodeGrows | iamproxy/aws.go:24-37 | A string is encoded as itself if and only if all its bytes stay, and otherwise grows by two for each that does not. |
| AwsCanonical.NoSeparators | iamproxy/aws.go:24-37 | No encoded string contains `&` or `=`. |
| AwsCanonical.SortedIsUnique | iamproxy/aws.go:46 | A multiset has one sorted arrangement. |
| AwsCanonical.LeqIsByteOrder | iamproxy/aws.go:46 | The order of the strings is byte by byte, a string before its extensions. |
| AwsCanonical.AwsQuery | iamproxy/aws.go:39-48 | For every order in which the map yields its keys the result is the canonical query of the pairs, however these are listed. |
| AwsCanonical.CanonicalIgnoresOrder | iamproxy/aws.go:39-48 | Permuted pairs have the same query. |
| AwsCanonical.CanonicalIsExact | iamproxy/aws.go:39-48 | Two lists of pairs have the same query if and only if they hold the same pairs equally often. |
| AwsCanonical.OrdersAgreeIff | iamproxy/aws.go:43-46 | Sorting joined `k=v` strings and sorting by key then value agree on two pairs if and only if neither encoded key is a proper prefix of the other that goes on with a byte below `=`. |
| AwsCanonical.CanonicalIsSigV4Iff | iamproxy/aws.go:43-46 | The query is in key-then-value order if and only if no two keys are such. |
| AwsToken.ValidateAWS | iamproxy/aws.go:50-121 | On any token: no principal if it does not parse, otherwise the declared verdict, with the query canonical for every listing of the remaining parameters. |
| AwsToken.ClientTokenIsAcceptedIff | iamproxy/aws.go:50-121 | A token made as a client makes it, for a listener, a known access key and a proper lifetime, is accepted if and only if it carries the session token of the principal, the time is from five minutes before its issue to its expiry, and the signature is the one that Signature Version 4 computes from the secret. |
| AwsToken.SplitUndoesJoin | iamproxy/aws.go:93 | Splitting the credential at slashes undoes joining it. |
| AwsToken.RequestIsInjective | iamproxy/aws.go:108 | The canonical request determines the host and the pairs of the query. |
| AwsToken.EachOnce | iamproxy/aws.go:68-72 | The loop over values finds a parameter that is not given once. |
| AwsToken.SignatureCoversTheQuery | iamproxy/aws.go:94-120 | Two tokens accepted for one principal and day with one signature have the same host, the same other parameters and the same user, or they exhibit a collision of the hash on their canonical requests or of the MAC on their strings to sign. |
| Identity.Service.GoogleIssue | iamproxy/identity.go:51-61 | The token table stays in step with the history of issues. |
| Identity.TableIsHistory | iamproxy/identity.go:93-99 | A token is in the table unexpired if and only if its newest issue is less than an hour old, with the principal and scope of that issue. |
| Identity.Service.ValidateGoogle | iamproxy/identity.go:93-108 | Decides from the table what the history of issues says: a principal if and only if a live issue of the token names one, has one of the two scopes as a word, and the lowered email goes by the username on that engine. |
| Identity.HasScopeIs | iamproxy/identity.go:100-102 | A scope is found if and only if it is one of the words between spaces. |
| Identity.IssuedIsAcceptedIff | iamproxy/identity.go:110-186 | An Azure token as it is issued lets its principal in if and only if the listener has its tenant, the audience is the database one, the time is within its life, and the username is the email or a group of the principal. |
| Identity.Service.ValidateAzure | iamproxy/identity.go:133-186 | The claim checks and the two group loops decide the declared condition, after the token is decoded. |
| Identity.Service.Validate | iamproxy/identity.go:63-83 | For each provider the result is its verdict if the principal is granted the listener, and nothing otherwise; successful logins, and only those, are logged. |
| Identity.Service.IdentityIsNeverShared | iamproxy/config.go:142-199 | Over any run of issues and logins: two logins on one listener with the same backend user are the same principal; so are two with the same username on a Google listener and two that name the same email on an Azure one. |
| Identity.NamesTellApart | iamproxy/config.go:173-197 | On one listener a backend user, Google name or Azure email belongs to one principal. |
| Identity.StartIsUnambiguous | iamproxy/server.go:66-112 | Whatever ports are bound, a configuration that the check accepted gives the service what its identity guarantee needs. |
| ImdsTokens.Table.Prune | iamproxy/http.go:86-90 | For any order of the map, exactly the tokens that had not expired at their own clock reading are left. |
| ImdsTokens.Table.Issue | iamproxy/http.go:69-95 | The refusals; and on success the pruned table with the new token, in step with the full history. |
| ImdsTokens.PrunedKeepsUnexpired | iamproxy/http.go:86-90 | Whatever a clock that never goes back does during the loop, no token that is still unexpired is dropped, and the table agrees with the history. |
| ImdsTokens.StoredIsUnexpiredIff | iamproxy/http.go:86-92 | Right after an issue every stored token is unexpired if and only if no other token expired between its own reading and the last. |
| ImdsTokens.StillClockLeavesUnexpired | iamproxy/http.go:86-92 | So they are when the clock does not move during the loop. |
| ImdsTokens.Table.Check | iamproxy/http.go:97-109 | Over any run, a token is accepted from the pruned table if and only if it was issued and its expiry has not come. |
| Server.BindListeners | iamproxy/server.go:97-112 | In memory nothing is bound and port 0 is refused; otherwise every listener gets the address of its own bind and nothing else changes. |
| Server.AddRoutes | iamproxy/server.go:119-124 | One listener is added if and only if none of its addresses belongs to another name. |
| Server.BuildRoutes | iamproxy/server.go:113-127 | The table is built if and only if no dial address belongs to two names, and then it maps an address to a listener if and only if that is its listen address or hostname and port. |
| Server.BindAndRoute | iamproxy/server.go:97-127 | Both loops together: served are the rebound listeners, the routes are exactly their dial addresses, and the steps succeed if and only if every bind does and no dial address belongs to two names. |
| Server.PortZeroIsRoutable | iamproxy/server.go:105-112 | Listeners configured with one address and port 0 can be served together, as each bind has its own port. |
| Server.DialTarget | iamproxy/server.go:259-270 | A dial reaches a listener if and only if the network is supported and the address is one of its own, and no other listener. |
| Server.StepKeepsInv | iamproxy/server.go:282-312 | Every step of the accept loop and its sessions keeps the semaphore equal to the number of live sessions, and every accepted connection in exactly one place. |
| Server.LoopTurns | iamproxy/server.go:284-300 | The loop stops if and only if accepting fails after the cancellation or the cancellation comes before a slot; it admits exactly the connection that waited, and closes exactly the one it refuses. |
| Server.AdmissionIsBounded | iamproxy/server.go:282-312 | In every run at most 256 sessions are live, each connection accepted is exactly one of waiting, live, about to be closed, or closed, and the connections not closed are at most 257 and those about to be closed. |
| Server.MoreThanSlotsOpen | iamproxy/server.go:283-300 | A run in which 257 connections are open and none waits. |
| Server.WithinIffGuarded | iamproxy/server.go:283-300 | A run never has more than 256 connections open if and only if each Accept of it returns while fewer than 256 are live or about to be closed. |
| Server.StoppedWindsDown | iamproxy/server.go:287-297 | After the loop has stopped every step lowers a measure and admits nobody. |
| Server.StoppedFinishes | iamproxy/server.go:300-310 | The measure is zero if and only if every connection ever accepted is closed. |

## Left out

- TLS, RSA, SHA-256, HMAC, JSON, base64, YAML, certificates and random bytes: foreign calls, taken as parameters or left to the label of a step.
- The texts of errors and log lines: a check returns whether it fails; only the fatal replies that the relay itself sends are modelled byte for byte.
- `clone`, and aliasing between a running emulator and its caller: configurations are values.
- The bytes on the client side of a MySQL relay while the other pump writes too: `MySqlFrames.RelayFrames` speaks of its own refusals only.
- The content that pumps read and write in `Relay`: they may read and write anything that is not empty; `MySqlFrames` has the bytes of the pump forth.
- How pgconn spells the address of a host and a port: taken to be the host and the decimal port joined.
- The address dialed for a PostgreSQL upstream whose host is a socket path or itself splits into host and port: the driver decides, and `Sessions.LoginGoesTo` leaves it open.
- `myNegotiated` and the backend logins of pgconn and go-mysql: one step that yields a backend or fails.
- Sessions.DialFollowsTheWholeLogin: `service.Validate` is a step that may answer either way there; what it answers is the subject of `Identity`.
- Which email an Azure group login stands for: a group name does not determine a principal, so `Identity.Service.IdentityIsNeverShared` speaks of backend users and emails there; the same holds for the database user of an AWS token.
- `azureIssue` and the decoding of its tokens: one foreign decoding step.
- The startup parameters `_ssl` and `_cancel` share the key space of real parameters, so a packet may spell them; the statements are about the returned map.
- Database, application name and replication mode passed on to the backend.
- `memListener` and the rest of `DialContext` after the route is found: a rendezvous that has no state of its own.
- Fairness of the Go scheduler and of timers: progress is stated as measures and as steps that are possible.
- Failed TCP accepts that do not end the loop, HTTP endpoints other than the IMDS token, and the JSON they reply.
- `cmd/`, `internal/`, `pgxdial`, `mysqldial`: adapters, tools and test doubles.
