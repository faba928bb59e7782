# Verification of the server library's protocols

A Dafny model of the parts of the library where a mistake would be silent: the framing that cuts a
byte stream into units, the connection on top of it, the HTTP text the client prints and the server
parses, and the state machines that threads and asynchronous handlers interleave.
`dafny verify dfyconfig.toml` checks everything.

## How the model is built

- `Sequences`: byte strings, `std::string::find`, flattening.
- `Varint`, `Units`: the length header and the unit tree. A unit is copied by value everywhere in the
  source, so it is a datatype; `set` and `operator<<` are its update functions.
- `Framing`: one call of each builder and the drain loop of the manager, on values. `Builders` and
  `Connections.Connection` are the classes with the fields the source updates; each method is proved to
  do to its object what the function in `Framing` or `Connections` does to a value. A buffer passed by
  reference is an argument and a result, a thrown assertion is a `Fault`, and the `unit_builder_i`
  interface is the datatype `AnyBuilder` of the two builders.
- `Streams`: the parse of a whole stream, defined without any builder. The theorems say that the
  incremental machine computes it under every chunking, that it inverts the sender's printing, and that
  no byte is lost.
- `Gate`, `HttpClient`, `SpawnPool`, `Timers`: step relations. A step is one atomic access, one critical
  section or one completion handler; what the network, the clock or a child process does is the choice
  of the next step. Every theorem is about every finite sequence of steps from the initial state.
- `ChunkedBody`, `RequestHead`, `RequestReading`, `QueryString`: HTTP text, with a `char` for a byte. How
  much has arrived whenever a read completes is an arbitrary argument.
- `RelativeTime`: the cascade of roundings of the age text.

Bytes are 0..255 and the header's shifts are multiplications by powers of 128; `|=` is written `+`, which
`Varint.TermBound` justifies. Terms are cut to 32 bits where the source cuts them.

## Where code and documentation differ

- The tests bound a message header by `sizeof(uint32_t)` bytes (`tests/network_app_unit_tests.cpp:217`
  and `:235`); the code prints five bytes from 2^28 on (`Varint.PackLength`).
- Every outcome of a request goes to its callback except two: a chunk size of 2^64-2 or 2^64-1, which `-1` is
  to `stoul`, wraps `2 + length`, and then `new char[length]` throws where nothing catches it
  (`src/network/web/http_client_impl.h:708` and `:742`); so does `stoull` on a Content-Length that is no
  number (`:594`). `HttpClient.CallbackExactlyOnce` is the exact condition, and
  `HttpClient.MinusOneLosesCallback` a run that meets it. A run goes on after such an exception here,
  which covers the one that ends the process.
- The default delimiter `"\r\n\r\n"` has a border, so a message can be cut although it does not contain
  the delimiter (`Streams.DefaultDelimiterBreaks`); `Streams.DelimitedRoundTrip` is the exact condition.
- The Host value of a host that contains a colon does not read back (`RequestHead.HostReadsBack`).
- A field value is trimmed on the server only, so fields survive exactly when no value starts with a
  blank (`RequestHead.FieldsSurvive`).
- A query survives exactly when every name is nonempty and free of `&`; a `=` in a name does no harm,
  because the last one splits (`QueryString.QueryRoundTrip`).
- The age text announces an event in the past as "in the future" exactly when bit 31 of the difference
  is set (`RelativeTime.FutureExactly`), and its branch for months alone is never taken.

## Model

| member | source | states |
|---|---|---|
| Varint.PackLoop | src/network/integer_builder.cpp:9-24 | the printing loop produces the base-128 encoding of any 32-bit value |
| Varint.UnpackLoop | src/network/integer_builder.cpp:27-44 | the reading loop, with each shifted term cut to 32 bits, reports the value and its length, or that bytes are missing, or that the sixth byte is out of range; a value read fits 32 bits |
| Varint.RoundTrip | src/network/integer_builder.cpp:9-44 | for every 32-bit v and any tail, unpack of pack(v) ++ tail gives v and consumes exactly pack(v) |
| Varint.PackLength | src/network/integer_builder.cpp:9-24 | the length is the least n >= 1 with v < 128^n, at most 5 |
| Varint.PrefixRejected | src/network/integer_builder.cpp:27-44 | every proper prefix of an encoding is refused as incomplete |
| Varint.PrefixFree | src/network/integer_builder.cpp:9-44 | no encoding is a prefix of another value's encoding |
| Varint.Canonical | src/network/integer_builder.cpp:9-44 | a header that reads as v is the one the sender prints for v if and only if it has no redundant final zero byte and its fifth byte is below 16 |
| Varint.UnpackBelowLimit | src/network/integer_builder.cpp:27-44 | whatever bytes a header has, the number read is below 2^32 |
| Units.ToNetworkString | src/network/unit.cpp:249-265 | the recursive serialiser emits the data of the whole tree once, each unit before the units nested in it |
| Units.NestingInvisible | src/network/unit.cpp:249-265 | a grouping unit can be replaced by its nested units without changing the wire form |
| Units.IntegerReadsBack | src/network/unit.cpp:149-168 | an integer unit goes out as a header that the integer builder reads back as that number |
| Framing.EatProgress | src/network/unit_builder_manager.cpp:41-59 | on a nonempty buffer a builder call either stays waiting or finishes a unit and uses at least one byte, also for an empty message and a payload resumed midway; the size assertion of string_builder never fails |
| Framing.FeedTwice | src/network/unit_builder_manager.cpp:25-59 | feeding a then b leaves the same full state as feeding a ++ b, or throws for the same reason with the same units |
| Framing.Fragmentation | src/network/unit_builder_manager.cpp:25-59 | for any number of packets, the buffer, the queue and the nested builder state equal those of feeding at once all that arrived, also after a throw; packets behind the throw change neither the throw nor the units |
| Streams.ParsePrinted | src/network/msg_builder.cpp:10-51 | parsing the printed form of any sendable message list gives exactly those messages, in order, and then the parse of what follows, for both protocols |
| Streams.RefusedIsUnreceivable | src/network/msg_builder.cpp:10-21 | create refuses exactly the messages below 2^32 bytes that would bring down a receiver with the same limit |
| Streams.DelimitedRoundTrip | src/network/dstream_builder.cpp:7-27 | a message list comes back if and only if in every message ++ delimiter the first delimiter is the appended one |
| Streams.UnborderedSendable | src/network/dstream_builder.cpp:7-27 | for an unbordered delimiter that condition is that the message does not contain it |
| Streams.DefaultDelimiterBreaks | include/server_lib/network/dstream_builder.h:19-22 | for the default delimiter it is not: a message without it that is cut short |
| Streams.ChunksAreParsed | src/network/unit_builder_manager.cpp:25-59 | any chunking of any stream yields the units and the throw of its parse, and leaves in builder and buffer what the parse of the packets that arrived leaves over |
| Streams.BytesConserved | src/network/unit_builder_manager.cpp:25-59 | between any two packets and after a throw, wire forms of the units built, then the header and partial payload held by the builder, then the buffer, are the bytes that arrived, if and only if every length header in them is the one the sender prints |
| Streams.DelimitedBytesConserved | src/network/dstream_builder.cpp:14-27 | with a delimiter nothing ever throws and no byte is lost, on every stream and every chunking |
| Streams.TurnConserves | src/network/unit_builder_manager.cpp:41-59 | a single turn of the drain loop conserves the bytes of builder and buffer, from every builder state and whether it waits, finishes a unit or throws, if a header it reads is the sender's |
| Streams.ReceivedCarries | src/network/string_builder.cpp:33-41 | a received unit is ok and its network string is the message; it is a null unit exactly for an empty counted message |
| Builders.IntegerBuilder.Consume | src/network/integer_builder.cpp:47-61 | takes a complete header off the buffer and nothing otherwise |
| Builders.StringBuilder.Consume | src/network/string_builder.cpp:14-44 | accumulates the payload across calls, as the value model says, including the failing assertion |
| Builders.MsgBuilder.Create | src/network/msg_builder.cpp:10-21 | the wire form is header ++ message, and it throws exactly on a message over the limit or over 32 bits |
| Builders.MsgBuilder.Consume | src/network/msg_builder.cpp:23-51 | the two-stage machine on the nested builders, with the throw on an oversize header |
| Builders.MsgBuilder.Clear | src/network/msg_builder.cpp:53-58 | reset of the whole nested state |
| Builders.DStreamBuilder.Create | src/network/dstream_builder.cpp:7-12 | the wire form is message ++ delimiter |
| Builders.DStreamBuilder.Consume | src/network/dstream_builder.cpp:14-27 | cuts at the first delimiter, or leaves the buffer alone |
| Builders.UnitBuilderManager.BuildUnit | src/network/unit_builder_manager.cpp:41-59 | one turn of the loop on the real objects |
| Builders.UnitBuilderManager.Add | src/network/unit_builder_manager.cpp:25-34 | the drain loop ends and leaves the state the value model gives |
| Builders.UnitBuilderManager.PopFront | src/network/unit_builder_manager.cpp:74-79 | takes the oldest unit, or refuses on an empty queue |
| Connections.SentIsPrinted | src/network/connection.cpp:122-173 | however posts are grouped into commits, written buffers and pending bytes are the printed accepted messages in order |
| Connections.WrittenIsCommitted | src/network/connection.cpp:129-173 | after any posts and commits, what the transport was handed is exactly the printed messages posted before the last commit, in nonempty buffers, and what is pending is exactly those posted since |
| Connections.CommitDeliversAll | src/network/connection.cpp:129-240 | when the last thing done is a commit, nothing is pending, everything posted is written, and once it has arrived and nobody disconnected, everything posted has been delivered |
| Connections.PrefixSafety | src/network/connection.cpp:210-240 | on every stream of headers of at most five bytes, any chunking, any disconnect: the delivered units are a prefix of the parse of what arrived up to its first bad header, and all of it while the connection is up |
| Connections.NothingAfterDisconnect | src/network/connection.cpp:210-240 | whatever arrived before and arrives later, when the k-th connection test of one packet is the first to fail, the units delivered by the whole run are those of the stream before that packet and exactly k more; when the packet completes a bad header, none of its units is delivered |
| Connections.UpOnGoodStream | src/network/connection.cpp:217-227 | only a bad header or somebody's disconnect takes the connection down |
| Connections.EndToEnd | src/network/connection.cpp:129-240 | for any messages, any commit grouping and any fragmentation, what was delivered is a prefix of the messages committed, each once and in order, and all of them once their bytes have arrived |
| Connections.Converse | src/network/connection.cpp:122-240 | the same guarantee for two connection objects, one driven through any posts and commits, the other through any packets of what the first one wrote |
| Connections.Connection.Post | src/network/connection.cpp:122-140 | refuses exactly what create refuses, and otherwise appends the wire form |
| Connections.Connection.Commit | src/network/connection.cpp:142-173 | while connected the send buffer becomes empty and, if it held anything, is the one buffer handed to the transport; on a lost connection it is lost |
| Connections.Connection.Disconnect | src/network/connection.cpp:242-256 | clears the send buffer, once |
| Connections.HandedIsTaken | src/network/connection.cpp:229-237 | the delivery loop hands over exactly the queue up to the first failing connection test, and leaves the rest |
| Connections.Connection.Deliver | src/network/connection.cpp:229-237 | the delivery loop on the real objects ends and does that |
| Connections.Connection.OnRawReceive | src/network/connection.cpp:210-240 | feeds the packet, disconnects on a throw, delivers while connected |
| Gate.CounterMeansLocks | src/network/scope_runner.cpp:8-30 | in every interleaving with spurious failures the counter is the number of live locks or -1 with none live; refusals and returned stops only exist at -1 |
| Gate.LiveLocksAreGranted | src/network/scope_runner.cpp:8-18 | in every run the live locks are exactly those whose compare-exchange succeeded and that were not given back, and the counter counts them or is -1 with none |
| Gate.StopIsFinal | src/network/scope_runner.cpp:20-30 | once a stop returned, no lock is live or granted in any continuation |
| Gate.StopWaits | src/network/scope_runner.cpp:20-30 | no attempt of any stop returns while a lock is live |
| Gate.StopCompletes | include/server_lib/network/scope_runner.h:35-38 | from any reachable state a stop, waiting or new, returns after the holders have given back their locks in any order |
| Gate.StopReturns | src/network/scope_runner.cpp:20-30 | with no lock live the next non-spurious attempt returns, and once the gate is closed any attempt does |
| Gate.LockDecides | src/network/scope_runner.cpp:8-18 | undisturbed, a lock request is granted or refused within two attempts, the first perhaps spurious, and refused exactly when the gate is stopped |
| Gate.NewCallDecides | src/network/scope_runner.cpp:8-18 | a new lock request that nothing disturbs decides at its first attempt and changes nothing else |
| Gate.SpuriousCostsOneAttempt | src/network/scope_runner.cpp:11-12 | a spurious failure grants nothing, closes nothing and moves no other call |
| HttpClient.PoolIsExclusive | src/network/web/http_client_impl.h:474-507 | in every reachable state live sessions hold different connections, none of them idle, and at most one pooled connection is idle |
| HttpClient.IdleIsReused | src/network/web/http_client_impl.h:474-507 | a new request takes an idle pooled connection whenever there is one, and only otherwise a new one |
| HttpClient.PruningSpares | src/network/web/http_client_impl.h:228-250 | ending a request never takes another session's connection out of the pool, keeps exactly one idle after a success and drops its own after a failure |
| HttpClient.PruneLoop | src/network/web/http_client_impl.h:233-249 | the loop over the pool in any order computes the pruned set |
| HttpClient.FailedHead | src/network/web/http_client_impl.h:648-672 | a failed head read reconnects on a connection nobody had, exactly when it is the first time, not aborted and the old one is still pooled |
| HttpClient.NoReconnectAfterStop | src/network/web/http_client_impl.h:424-430 | after stop emptied the pool no request begun before it reconnects any more |
| HttpClient.NothingFiresAfterStop | src/network/web/http_client_impl.h:432-432 | once the gate is closed no callback fires in any continuation |
| HttpClient.RequestFollowsTrace | src/network/web/http_client_impl.h:549-768 | in every run of a client not stopped, what a request waits for, and whether its callback gets a response or an error, is what the list of its own completions says |
| HttpClient.EndsWellExactly | src/network/web/http_client_impl.h:549-768 | by that list a request ends without error if and only if its completions are those of a complete response: sent, a head, and the whole body the head announces, at once or after one failed head read on a second connection |
| HttpClient.CallbackAtMostOnce | src/network/web/web_client.cpp:83-160 | in every run each request's callback fires at most once and the request reconnects at most once |
| HttpClient.RegisterIsNew | src/network/web/web_client.cpp:92-95 | a request gets an id nobody had, and its callback is put in the table |
| HttpClient.CallbackExactlyOnce | src/network/web/http_client_impl.h:563-768 | in a client not stopped, a request with nothing pending has fired its callback exactly once if and only if none of its handlers threw: on a Content-Length that is no number, or on a chunk size of 2^64-2 or more whose wrapped count of bytes (0 or 1) arrived; otherwise its callback stays in the table (with which outcome it fires is `HttpClient.RequestFollowsTrace`) |
| HttpClient.MinusOneLosesCallback | src/network/web/http_client_impl.h:691-744 | the size line "-1" in an ordinary run ends the request, and its callback is never fired whatever happens later |
| HttpClient.AnnouncedIsRead | src/network/web/http_client_impl.h:689-728 | what the request automaton is told about a size line is what the chunk decoder does with it, wrapped sizes included |
| HttpClient.RequestIsShort | src/network/web/http_client_impl.h:549-768 | a request takes at most 20 completions plus two for each data chunk announced |
| ChunkedBody.DecodeEncoded | src/network/web/http_server_impl.h:778-890 | for any chunk list, any spelling of the sizes with or without extensions and any arrival pattern, the content is the chunks concatenated, preceded only by bytes of the next message that had already arrived |
| ChunkedBody.DecodeIsBody | src/network/web/http_server_impl.h:778-890 | on every stream, well formed or not, the outcome (content, refusal or exception) and the content depend on the stream alone and not on how it arrives |
| ChunkedBody.BodyIsPayload | src/network/web/http_client_impl.h:676-768 | with nothing behind it, the content is exactly the concatenation and no byte is left |
| ChunkedBody.TruncatedIsBad | src/network/web/http_server_impl.h:778-890 | a chunked body cut short anywhere is refused |
| ChunkedBody.StoulReads | src/network/web/http_server_impl.h:803-807 | what a size line may look like: blanks, a sign, "0x" and digits before anything else, and which number it gives |
| ChunkedBody.PrintedSize | src/network/web/http_server_impl.h:803-807 | every size has a spelling that is read back, so every body has an encoding |
| ChunkedBody.Reader.ReadChunkedBody | src/network/web/http_server_impl.h:778-890 | the reading loop on the stream buffer ends and leaves what the decoder gives, with the same error or exception |
| ChunkedBody.Reader.ReadOne | src/network/web/http_server_impl.h:797-880 | one size line and its chunk, with the count of bytes still to read |
| RequestHead.ScanTarget | src/network/web/http_utility.h:42-53 | the index loop finds the first space and the last '?' before it |
| RequestHead.ParseStartLine | src/network/web/http_utility.h:35-81 | the request line as the parser cuts it, with every refusal |
| RequestHead.AcceptedExactly | src/network/web/http_utility.h:35-81 | a request line is accepted if and only if it is a method, a target and "HTTP/" with single spaces between |
| RequestHead.ShapeParsed | src/network/web/http_utility.h:35-81 | such a line is cut into its method, its target at the last "?", and what follows the slash without the last character |
| RequestHead.ParseFieldsLoop | include/server_lib/network/web/web_entities.h:162-179 | the field loop and where it stops in the stream |
| RequestHead.BlockParsed | include/server_lib/network/web/web_entities.h:162-179 | any lines with colons are read one by one, up to and with the first line without one |
| RequestHead.AnyFieldLine | include/server_lib/network/web/web_entities.h:170-174 | any such line gives the name before its first colon and the rest without leading blanks and last character |
| RequestHead.HeadRoundTrip | src/network/web/http_client_impl.h:512-530 | the server's parse returns the client's method, path ("/" for none) and query, with path ++ "?" ++ query the target, version 1.1 and every field in order, and the rest is exactly what stands behind the blank line |
| RequestHead.FieldsSurvive | include/server_lib/network/web/web_entities.h:170-174 | the field multiset, with Host and an added Content-Length, survives if and only if no value starts with a blank |
| RequestHead.FieldsSent | src/network/web/http_client_impl.h:256-268 | the fields sent are Host, the caller's own, and a Content-Length that reads back as the size exactly when there is content, no field is named so and the coding is not chunked |
| RequestHead.HostReadsBack | src/network/web/http_client_impl.h:522-547 | the Host value is read back as the host and port it was printed from if and only if the host has no colon |
| RequestHead.SameNameIgnoresCase | include/server_lib/network/web/web_entities.h:11-16 | two names are the same if and only if they differ at most in the case of letters |
| RequestHead.LookupAnyOrder | include/server_lib/network/web/web_entities.h:41 | a lookup does not depend on the order of the multimap unless one name has different values |
| RequestReading.BlankLine | src/network/web/http_server_impl.h:702-775 | the first blank line found in the stream is the end of the head |
| RequestReading.HeadRead | src/network/web/http_server_impl.h:696-714 | however bytes arrive, the count of additional bytes is the number of content bytes already buffered |
| RequestReading.ServedExactly | src/network/web/http_server_impl.h:676-776 | for every printed request, any bytes behind its head and any arrival pattern: when the request is served, when it is refused, and what its content is, by Content-Length, by chunks or as buffered |
| RequestReading.ContentServed | src/network/web/http_server_impl.h:676-776 | a printed request with content, whose caller names no length and does not choose the chunked coding, or names the right one, reaches the application with exactly its content, for every arrival pattern |
| RequestReading.EmptyServed | src/network/web/http_server_impl.h:759-765 | so does a request without content, whether or not its caller gives the length |
| RequestReading.ChunkedServed | src/network/web/http_server_impl.h:759-763 | and one whose content is a chunked body, with the chunks' data |
| QueryString.EncodeLoop | include/server_lib/network/web/web_entities.h:48-64 | the encoding loop |
| QueryString.DecodeLoop | include/server_lib/network/web/web_entities.h:67-89 | the decoding loop, including malformed escapes |
| QueryString.DecodeEncode | include/server_lib/network/web/web_entities.h:48-89 | decode(encode(s)) = s for every byte string |
| QueryString.AnySpellingDecodes | include/server_lib/network/web/web_entities.h:67-89 | any mix of plain characters, "+" for a blank and escapes with digits of either case decodes to the bytes it stands for |
| QueryString.EncodedLength | include/server_lib/network/web/web_entities.h:48-64 | exactly the texts of unreserved characters (section 2.3 of RFC 3986) encode to themselves |
| QueryString.EncodeIsSafe | include/server_lib/network/web/web_entities.h:48-64 | an encoded text has only unreserved characters and '%' |
| QueryString.CreateLoop | include/server_lib/network/web/web_entities.h:97-109 | the joining loop |
| QueryString.ParseLoop | include/server_lib/network/web/web_entities.h:112-153 | the loop over position variables splits at '&', and each part at its last '=' |
| QueryString.ParseJoined | include/server_lib/network/web/web_entities.h:112-153 | a query says what its parts between "&" say, one by one |
| QueryString.PartSays | include/server_lib/network/web/web_entities.h:112-153 | a part gives its name and decoded value; a name alone has an empty value; without a name there is no field |
| QueryString.QueryRoundTrip | include/server_lib/network/web/web_entities.h:97-153 | for any iteration order and any byte values, parse(create(f)) = f as a multiset if and only if every name is nonempty and free of '&' |
| SpawnPool.ProcessesConserved | src/spawn.cpp:315-356 | at every step of every interleaving, appended = waiting + seen finished + killed, as bags |
| SpawnPool.CounterIsExact | src/spawn.cpp:315-346 | the counter never underflows and outside critical sections is the number not yet seen finished |
| SpawnPool.FinishedIsSeen | src/spawn.cpp:326-346 | a process counts as finished exactly when poll() said so, once |
| SpawnPool.RoundPolled | src/spawn.cpp:326-346 | one round of the loop polls every waiting process once; the finished leave the pool and the count, the others keep their order |
| SpawnPool.AppendTakes | src/spawn.cpp:315-324 | an undisturbed append adds and counts its process, or does nothing once the pool is being destroyed |
| SpawnPool.EveryProcessEnds | src/spawn.cpp:326-356 | when the polling thread has ended, every process was seen finished or killed, once |
| SpawnPool.UnlockedPushIsAlone | src/spawn.cpp:335-342 | the push without the mutex cannot meet an append |
| SpawnPool.BreakingEnds | src/spawn.cpp:308-356 | after the flag is set every step of the polling thread brings its end nearer |
| SpawnPool.DestructorReturns | src/spawn.cpp:308-356 | called with no append in progress, the destructor ends the polling thread within a bounded number of its steps, whatever poll() answers, with every process finished or killed |
| Timers.OneLiveTask | include/server_lib/timers.h:38-52 | at most one posted task can still call back |
| Timers.SingleShotFiresOnce | include/server_lib/timers.h:38-52 | a firing comes right behind its own start: no stop, start or firing in between |
| Timers.PeriodicalObeysStop | include/server_lib/timers.h:79-90 | a periodical timer re-arms before it calls back, and fires only if the last start or stop was a start |
| Timers.ArmedFires | include/server_lib/timers.h:38-47 | while a start is in force some posted task will call back |
| Timers.LogTellsCalls | include/server_lib/timers.h:38-52 | the starts and stops in the log are, in order, the calls made |
| Timers.StopSilences | include/server_lib/timers.h:49-52 | after a stop no deadline calls back until the next start, for both kinds, so a timer stopped in its own callback stays silent |
| Timers.StartIsHonoured | include/server_lib/timers.h:38-47 | after a start and with no later call, a periodical timer always has a deadline that fires, and a single-shot one fires exactly once |
| Timers.DeadlineTakesTask | include/server_lib/timers.h:38-47 | each deadline takes its own task away, and only re-arming posts another |
| RelativeTime.PrintedIsClose | src/options_helper.cpp:115-160 | the amount is within 30, 1830, 45030 and 304230 seconds of the true age in the minute, hour, day and week branches; months alone never appear; years >= 1 and leftover months <= 12 |
| RelativeTime.UnitExactly | src/options_helper.cpp:115-150 | which unit is printed, in seconds of the true age |
| RelativeTime.YearsAreClose | src/options_helper.cpp:150-160 | the years are whole years of 365 days, and the leftover months are within 15 days of what is left |
| RelativeTime.TextIsAboutDistance | src/options_helper.cpp:106-113 | the text is about the distance of the difference to the nearest multiple of 2^32, and missing exactly when the event lies ahead or that distance overflows |
| RelativeTime.FutureExactly | src/options_helper.cpp:106-113 | "in the future" is printed exactly when bit 31 of the difference is set |
| RelativeTime.RecentIsExact | src/options_helper.cpp:106-113 | up to 2^31 - 31 seconds the text is about the true age |
| RelativeTime.OldEventInTheFuture | src/options_helper.cpp:108-113 | a past event announced as in the future |

## Left out

- Varint.UnpackLoop: a sixth header byte is the outcome `Undefined` and ends the run, because the source shifts out of range there; nothing is claimed after it.
- Framing.Fragmentation: the connection always disconnects on a throw, so a builder fed after it threw is not modelled. A delimiter is nonempty.
- Connections.EndToEnd: assumes that one thread posts and commits and that the transport carries every committed buffer whole and in order; `async_write_some` is not asked how much it wrote.
- Connections.Connection.OnRawReceive: called only while connected; the transport's gate drops packets for a connection that is down.
- Units.ToNetworkString: the printable form of units is not modelled.
- Gate.StopReturns: the counter is unbounded, and a thread that stops while it holds a lock itself waits for ever, as in the source.
- HttpClient.CallbackExactlyOnce: `stop` is modelled for safety only; it holds the pool's mutex while it waits for the gate.
- HttpClient.RequestIsShort: the TLS handshake of the HTTPS client adds one operation that is not modelled, nor are proxies, timeouts and the resolver.
- ChunkedBody.DecodeIsBody: no trailers, and no limit on the size of the stream buffers or of memory; a size line that is empty before its line feed counts as no number, where the source's `pop_back` is undefined.
- RequestHead.ParseFieldsLoop: `getline` on an exhausted stream yields an empty line here; the server parses only once the blank line is in, so that case does not arise.
- RequestReading.ContentServed: a request line without target proxy; the limit on the request buffer is not modelled, and nothing follows the request in the stream.
- RequestReading.ChunkedServed: if one field name is repeated with different values, `find` gives the first of them here, while the source's hash map may give any (`RequestHead.LookupAnyOrder`).
- SpawnPool.EveryProcessEnds: an append that overlaps the destructor is excluded; processes and their signals are foreign.
- Timers.SingleShotFiresOnce: generations are unbounded integers, and start and stop are steps of one loop.
- RelativeTime.PrintedIsClose: the wording and plural endings are not modelled.
- The classes of `Gate`, `HttpClient`, `SpawnPool` and `Timers` are transition functions on values, since what matters is how atomic steps of several threads interleave; lifetimes and aliasing of the shared pointers involved are not captured.
- HttpClient.RequestFollowsTrace: what a response head announces is the choice of the step; the response head parser is not modelled.
- Cookies and the semicolon-separated attribute parser.
- The start barrier of `event_pool` (`src/event_pool.cpp:55-91`) is not part of this model.
- Sockets, the asio scheduler, signals, process creation, logging, configuration classes, observers and version packing.
