# Greeter and echo: a verified model

This project models three parts of the repository and proves what holds of them on all inputs and in
all runs.

- **The message codec** (`src/helloworld.pb.cc`): the generated parse loop, serializer, size
  computation, clear, merge and copy of `HelloRequest` and `HelloReply`, with unknown fields kept and
  nested groups. The two classes differ only in the name of their string field, so one class,
  `HelloMessage`, is either of them. The wire helpers the generated code calls are written out from
  the Protocol Buffers Encoding specification ("Base 128 Varints", "Message Structure",
  "Length-Delimited Records", "Groups", "Last One Wins"); UTF-8 is section 4 of RFC 3629. The longest
  string (below 2^31) and the deepest group are parameters.
- **The asynchronous greeter server** (`include/greeter_async_server.h`) and its client
  (`include/greeter_async_client.h`): `CallData` objects that hand themselves to a completion queue by
  address, with any number of handler threads interleaved one statement at a time.
- **The echo programs and the context pool** (`src/test_tcp_server.cpp`, `src/test_tcp_client.cpp`,
  `include/io_context_pool.h`, and the second round robin in `src/test_drogon.cpp`).

| file | contents |
|---|---|
| `Bytes.dfy`, `Varint.dfy`, `Utf8.dfy` | bytes, varints and fixed-width integers, UTF-8 |
| `WireFormat.dfy` | fields: writing, sizing, parsing |
| `WireGrammar.dfy` | the same format as a grammar, equivalent to the parser |
| `WireWriter.dfy` | writing fields into a buffer in place |
| `Message.dfy` | what parsing, serializing and merging mean for a message |
| `HelloMessage.dfy` | the generated class: loops and updates in place |
| `GreeterServer.dfy` | the server and its runtime as a transition system |
| `ServerInvariant.dfy` | what every step keeps |
| `Proceed.dfy` | the branches of `Proceed`, each from its first statement to its last |
| `ServerRuns.dfy` | hand-off, progress and outcome of whole runs |
| `EndToEnd.dfy` | `SayHello` through codec and server |
| `RoundRobin.dfy`, `IoContextPool.dfy`, `TcpServer.dfy`, `Echo.dfy`, `EchoLoops.dfy` | turns, the pool, the accept loop, the echo as one system and as two loops |

How the parts are tied together:

- A message on the wire is a sequence of fields. `WireFormat.ParseFields` splits bytes into fields and
  `Message.Parse` folds them over a message; the loop in `HelloMessage.InternalParse` interleaves the
  two and is proved to compute the same. `WireGrammar` says which bytes spell which fields, and what
  may stop them, without parsing anything; the parser accepts exactly those, and fails on all others.
- In the server model each address has tokens: one for each registered tag, event, finish in flight and
  thread inside its `Proceed`. Every step keeps exactly one token for each live instance and none for
  any other address, and that is why writing the status before publishing `this` is enough. Deleted
  addresses may be reused by later instances.
- The echo is one transition system, in which the two programs share the pipes, and two loops over what
  their reads return. In every run of the system, each loop fed with the reads of its side writes and
  receives what the run does.
- A property of the code that does not hold on all inputs is stated with the exact condition under which
  it does, and with an input for which it does not. Parsing bytes into a message is merging if and only
  if the message had no text or the last text field of the bytes, if there is one, is not empty. The
  echo client gets back all it sent if and only if each of its reads fills the whole block: it reads
  once an iteration, and a short read is never made up for.

## Model

| member | source | states |
|---|---|---|
| Utf8.ValidConcat | src/helloworld.pb.cc:177 | after a well-formed prefix, a string is valid UTF-8 exactly when the rest is |
| Utf8.ValidIsEncoded | src/helloworld.pb.cc:177 | a string is valid exactly when it is the shortest-form encoding of some Unicode scalar values |
| Utf8.Boundaries | src/helloworld.pb.cc:177 | the first and last characters of each length are accepted, and overlong forms, surrogates and what is just past them are not |
| Varint.ReadWrite | src/helloworld.pb.cc:170 | a written varint is read back, whatever follows, if it fits in the bytes allowed, and refused if not |
| Varint.WriteIsShortest | src/helloworld.pb.cc:176 | no accepted encoding of a number is shorter than the one written |
| Varint.SizeAgrees | src/helloworld.pb.cc:239-240 | the size computed from the highest bit is the number of bytes written, for every number |
| Varint.TagIs | src/helloworld.pb.cc:170 | a tag is one to five bytes, seven bits of each, the first lowest, cut to 32 bits, byte by byte |
| Varint.UInt64Is | src/helloworld.pb.cc:191-194 | a varint field is accepted exactly when it ends within ten bytes, and is cut to 64 bits |
| WireFormat.WireForms | src/helloworld.pb.cc:221-224 | the wire types and the two tags of a group, for every field number |
| WireFormat.FixedForms | src/helloworld.pb.cc:221-224 | fixed-width integers are written lowest byte first, under wire types 5 and 1 |
| WireFormat.StringIs | src/helloworld.pb.cc:176 | a string is accepted exactly when its length ends within five bytes, is within the limit and within the input |
| WireFormat.GroupDepth | src/helloworld.pb.cc:191-194 | a group takes exactly one level of the nesting allowed |
| WireFormat.FieldsSizeAgrees | src/helloworld.pb.cc:244 | the size of unknown fields, nested groups included, is the number of bytes they are written as |
| WireFormat.ParseFieldsEmitted | src/helloworld.pb.cc:191-195 | fields written with nested groups are parsed back in order and what follows is parsed as it would be alone |
| WireFormat.ParseFieldsOk | src/helloworld.pb.cc:191-195 | every field of an accepted input is within the length, depth, number and width limits |
| WireFormat.FieldsShrink | src/helloworld.pb.cc:221-224 | writing parsed fields and the tag that ended them takes no more bytes than were read, through all groups |
| WireFormat.ParseFieldsConcat | src/helloworld.pb.cc:168-196 | fields that stopped at a tag ignore what follows; those that ran to the end continue into it, for any accepted spelling |
| WireGrammar.AcceptsExactlySpellings | src/helloworld.pb.cc:168-203 | the parser accepts an input as these fields, this end (the input's or a zero or end-group tag) and this many bytes if and only if the grammar reads it so, and fails if and only if the grammar has no reading |
| WireGrammar.Unambiguous | src/helloworld.pb.cc:168-203 | no input has two readings |
| Message.LastOneWins | src/helloworld.pb.cc:171-196 | the last occurrence of the string field decides it; all other fields are kept in order |
| Message.ParseSucceedsExactly | src/helloworld.pb.cc:166-203 | parsing gives a message, an end and a length if and only if the input reads, by the grammar, as fields with that end and length whose texts are valid UTF-8 and the message has absorbed them; it fails if and only if there are none |
| Message.StopsExactly | src/helloworld.pb.cc:186-190 | a zero tag or an end-group tag (tag mod 8 is 4) stops the parse successfully where it stands and leaves the message as it is; a parse never stops at any other tag |
| Message.TagEnds | src/helloworld.pb.cc:186-190 | a serialized message with such a tag and anything else after it parses to that message, that tag and that length |
| Message.ParseConcat | src/helloworld.pb.cc:166-203 | parsing a concatenation is parsing its parts in turn into the same message, for every accepted first part |
| Message.ParseSerialized | src/helloworld.pb.cc:205-227 | parsing what one message serializes to into another merges the two |
| Message.ParsedIsGood | src/helloworld.pb.cc:166-203 | parsing into a message within the limits leaves it within the limits |
| Message.TextIsFirst | src/helloworld.pb.cc:211-224 | a text that is not empty is written first, as the byte 10, its length and its bytes, and the unknown fields follow; an empty text is not written |
| Message.RoundTrip | src/helloworld.pb.cc:166-227 | a message survives serialize then parse if and only if its text is valid UTF-8 and it is within the limits, with no unknown field that is really the text |
| Message.Canonical | src/helloworld.pb.cc:166-227 | any accepted bytes, overlong or repeated fields included, parse to a message that serializes to no more bytes and parses back to itself |
| Message.MergeByConcatenation | src/helloworld.pb.cc:260-270 | parsing two serialized messages one after the other merges the second into the first |
| Message.MergeMonoid | src/helloworld.pb.cc:260-270 | merging is associative, and the cleared message is its identity |
| Message.ParseIsMerge | src/helloworld.pb.cc:260-270 | parsing arbitrary accepted bytes into a message equals merging their parse if and only if the message had no text, the bytes have no text field, or their last text field is not empty |
| Message.ExplicitEmptyIsNotMerge | src/helloworld.pb.cc:260-270 | a concrete input for which parsing into a message is not merging |
| HelloMessage.HelloMessage.constructor | include/helloworld.pb.h:75 | a new message is empty |
| HelloMessage.HelloMessage.Copy | src/helloworld.pb.cc:113-125 | the copy has the same contents |
| HelloMessage.HelloMessage.SetText | include/helloworld.pb.h:200 | setting the text changes nothing else |
| HelloMessage.HelloMessage.Clear | src/helloworld.pb.cc:359-367 | the contents become empty, unknown fields included |
| HelloMessage.HelloMessage.MergeFrom | src/helloworld.pb.cc:463-473 | the contents become the merge of both |
| HelloMessage.HelloMessage.CopyFrom | src/helloworld.pb.cc:475-480 | the contents become those of the other message, also when it is the same object |
| HelloMessage.HelloMessage.InternalParse | src/helloworld.pb.cc:369-406 | the loop over the bytes computes the field-by-field specification: failure, or the message, the stopping tag and the bytes consumed |
| HelloMessage.HelloMessage.ByteSizeLong | src/helloworld.pb.cc:432-448 | the size is the number of bytes serializing writes; it is cached, cut to a signed 32-bit integer, and nothing else changes |
| WireWriter.WriteString | src/helloworld.pb.cc:417-422 | tag, length and bytes are written one after the other at the target, and nothing else of the buffer changes |
| WireWriter.WriteFields | src/helloworld.pb.cc:424-428 | unknown fields, nested groups included, are written in place byte by byte as their wire form, and nothing else of the buffer changes |
| HelloMessage.HelloMessage.InternalSerialize | src/helloworld.pb.cc:408-430 | exactly the serialized form is written at the target, field by field, and nothing else of the buffer changes |
| ServerInvariant.EffectToken | include/greeter_async_server.h:65-97 | each statement hands on the one token of an instance, or makes or deletes it with the instance |
| ServerInvariant.NextInv | include/greeter_async_server.h:65-97 | every step of any thread, of the runtime or of a new client keeps ownership, roles, calls and capacity |
| Proceed.HandlerStarts | include/greeter_async_server.h:65-77 | a handler thread that nothing interrupts makes one instance, registers it and waits |
| Proceed.Processed | include/greeter_async_server.h:78-91 | the PROCESS branch from first to last statement: a registered successor, the reply "Hello " and the name sent to the instance's own call, status FINISH, and its tag given to the finish |
| Proceed.Finished | include/greeter_async_server.h:92-96 | the FINISH branch deletes the instance and changes nothing else |
| ServerRuns.HandOff | include/greeter_async_server.h:65-97 | in every state of every run a thread inside the Proceed of an instance is alone there, the instance is live and not yet published, and the assertion on the final status holds |
| ServerRuns.TagsAreLive | include/greeter_async_server.h:132-137 | a tag the runtime holds is unique and names a live instance no thread is inside; a deleted address has no tag and no thread |
| ServerRuns.OneOperation | include/greeter_async_server.h:65-97 | a live instance outside every Proceed has exactly one outstanding operation, of the kind its status tells |
| ServerRuns.RepliesAreRight | include/greeter_async_server.h:84-91 | in every state of every run, with new calls arriving, a call has no reply or exactly one, whose text is the six bytes of "Hello " and the name of its own request |
| ServerRuns.ServerCapacity | include/greeter_async_server.h:77-91 | the PROCESS instances are one for each started loop and one for each thread between making a successor and finishing: never more than two a thread, and exactly one when all wait |
| ServerRuns.ThreadEnabled | include/greeter_async_server.h:65-97 | in every state that keeps the invariant, no statement of a handler thread finds its instance deleted, its assertion false or its responder without a call; only waiting for an event can block |
| ServerRuns.Progress | include/greeter_async_server.h:124-139 | in every such state with a handler loop, some step is enabled as long as any call, event, finish or statement is left |
| ServerRuns.NeverBlocked | include/greeter_async_server.h:65-139 | in every state of every run, calls arriving at any time, no thread but a waiting one is blocked, and with a handler loop the server is stuck if and only if nothing is left to do |
| ServerRuns.StepCounts | include/greeter_async_server.h:65-97 | every step from a state that keeps the invariant takes exactly one off the number of steps left |
| ServerRuns.AtRest | include/greeter_async_server.h:124-139 | in a state that keeps the invariant with no step left, every call has exactly its own greeting and one registered instance remains for each loop |
| ServerRuns.EveryContinuation | include/greeter_async_server.h:65-139 | from any state of any run, once no more calls come, exactly the steps left follow under every scheduling, and then each call made at any time has its greeting once and one listening instance is left a loop |
| ServerRuns.NewCallIsAnswered | include/greeter_async_server.h:84-91 | a call made at any step of a run with any request has in the end exactly one reply: "Hello " and the name of the request it was made with, and nothing else |
| ServerRuns.EveryMaximalRun | include/greeter_async_server.h:124-139 | every run over a fixed backlog that cannot go on took exactly 4 steps a loop and 15 a call, answered each call once with its greeting, and left one listening instance a loop |
| ServerRuns.RunsAreBounded | include/greeter_async_server.h:124-139 | no run over a fixed backlog is longer, and with a loop it cannot go on if and only if it is that long |
| EndToEnd.TextAcross | src/helloworld.pb.cc:166-227 | a text crosses the wire unchanged if it is valid UTF-8 within the limit, and is refused if not |
| EndToEnd.SayHello | include/greeter_async_client.h:29-82 | stops exactly if one of the three assertions on the queue's event fails, which a queue that hands back its tag never causes; sends the name and nothing else, and returns the text of the reply or the bytes of "RPC failed" |
| EndToEnd.SayHelloGreets | include/greeter_async_client.h:29-82 | one call served from bytes to bytes gives the bytes of "Hello " and the name exactly when the name is valid UTF-8 that leaves room for them, and those of "RPC failed" otherwise |
| EndToEnd.EveryClientIsGreeted | include/greeter_async_server.h:65-97 | clients call at any time; when no more call and nothing more can happen, each has one reply, which reads as its own greeting, or as the failure if that is too long |
| EndToEnd.NewClientIsGreeted | include/greeter_async_server.h:65-97 | a client that calls with a name at any step of a run gets exactly one reply, "Hello " and that name, and reads it so if it can cross the wire |
| RoundRobin.Fair | include/io_context_pool.h:48-54 | after any number of calls two slots have been used equally often or differ by one |
| RoundRobin.EveryWindow | include/io_context_pool.h:48-54 | any n calls in a row use each slot exactly once |
| IoContextPool.IoContextPool.constructor | include/io_context_pool.h:23-32 | a pool of distinct new contexts, each kept running, whose first turn is context 0 |
| IoContextPool.MakePool | include/io_context_pool.h:23-32 | a pool of no contexts is refused, any other is made |
| IoContextPool.IoContextPool.GetIoContext | include/io_context_pool.h:48-54 | call k returns context k mod n |
| IoContextPool.HttpClients.Get | src/test_drogon.cpp:85-92 | the counter that wraps before use takes the same turns |
| TcpServer.SessionOf | src/test_tcp_server.cpp:44-56 | each successful accept starts one session, with socket, timer and executor on the context of its turn, and no other does |
| TcpServer.AllContextsVisited | src/test_tcp_server.cpp:44-47 | n iterations in a row visit exactly all contexts |
| TcpServer.TcpServer.AcceptAll | src/test_tcp_server.cpp:44-57 | the loop starts the sessions of the successful accepts and files an executor for the context of every iteration, replacing none |
| TcpServer.TcpServer.Start | src/test_tcp_server.cpp:37-58 | the acceptor takes turn k of the pool and iteration j turn k + 1 + j: each successful one starts, in order, a session with socket, timer and executor on context (k + 1 + j) mod n; executors are filed each for its own context and, after n iterations, for exactly every context |
| Echo.NextInv | src/test_tcp_server.cpp:22-30 | every move of bytes and every failed read keeps conservation and the bounds |
| Echo.SentIs | src/test_tcp_client.cpp:17-21 | all the client has written is "hello" and 1019 zero bytes over and over, as far as it has come: byte by byte, and how many |
| Echo.EchoConserves | src/test_tcp_client.cpp:16-31 | received, returning, buffered and outgoing bytes are together what was sent, in order; at a read at least a block is under way, and after i iterations at most 1023 i bytes |
| Echo.Progress | src/test_tcp_server.cpp:22-30 | while the session is open and the client has anything to do, some side can step |
| Echo.WholeBlocks | src/test_tcp_client.cpp:21-31 | in every state of every run the client has its completed iterations' blocks back if and only if none of its reads was short |
| Echo.EchoCompletes | src/test_tcp_client.cpp:16-31 | without failures every run is bounded and ends with all iterations done and the rest left in the pipe; everything came back if and only if every read of the client filled a whole block |
| Echo.EchoCanFallShort | src/test_tcp_client.cpp:16-31 | a run without failures, as long as it can be, in which the client does not get back all it sent |
| EchoLoops.Session | src/test_tcp_server.cpp:22-34 | the session writes back exactly the bytes of its reads before the first failed one, never the padding of its buffer, and closes exactly when one fails |
| EchoLoops.ClientLoop | src/test_tcp_client.cpp:16-31 | the counted loop completes the reads before the first failure, at most 100, has written one block of 1024 bytes more than that unless all succeed, each "hello" and zeros, and has received the bytes of those reads; these are as many as it wrote if and only if every read was full |
| EchoLoops.ClientInRun | src/test_tcp_client.cpp:16-31 | in any run, failed reads or not, a client that is done is its loop over what its reads returned: same iterations, bytes written and bytes received |
| EchoLoops.SessionInRun | src/test_tcp_server.cpp:22-34 | in any run the session is its loop over what its reads returned: it has closed or not, and has written back what the client received or can still read |

## Left out

- Shutdown of the server and its queue: the code says it does not handle it, so every event arrives with `ok` true.
- Deserialization failures at the server, message-size limits and retries: library policy. Calls in the server model carry a request that was decoded.
- `CallData` as heap objects: instances are values in a map from addresses, because threads interleave between statements and an instance deletes itself, which Dafny objects cannot do. The map records deletion and the reuse of addresses.
- The echo session and client as coroutines that share the pipes: together they are a transition system, since the two run concurrently; each loop alone, with its buffer, is a method over what its reads return, tied to the system by `EchoLoops.ClientInRun` and `EchoLoops.SessionInRun`.
- HelloMessage.HelloMessage.InternalParse: does not say what a message holds after a failed parse, which the library leaves unspecified. Reading past the end of the input into the library's padding bytes is modelled as a malformed value.
- TcpServer.TcpServer.Start: its endless loop is run for a given list of accept outcomes, of any length.
- Echo.EchoConserves: assumes successful writes and unbounded pipes; both programs ignore the result of a write.
- The client's channel and stub: together with its completion queue they are a function from request bytes and a tag to one event.
- Arenas, reflection, descriptors, default instances, swapping, and the warnings logged for invalid UTF-8 when serializing: library internals.
- Sockets, resolving, timers, operating-system threads, logging and sleeps: they appear only as the choice of the next step.
- `asio_util.hpp` and the MySQL and Redis awaiters: each stores one result and resumes.
- The generated gRPC stubs, and the AWS, sqlpp, Folly, Drogon (but for its client chooser), Boost and YAML demos: calls into libraries that are not part of this model.
