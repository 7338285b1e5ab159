# A verified model of the OPC UA server's control API and runtime

The server is two processes. The control API (TypeScript) keeps connections, mappings, object
nodes and variables in SQLite, talks to PLCs, and writes the configuration of the address space.
The runtime (C) reads that configuration, builds and clears the OPC UA address space, and takes
value updates as lines of JSON on its standard input. This project models the parts of both that
carry PLC values and address-space rows from one to the other, and proves what they promise.

`dafny verify dfyconfig.toml` checks all of it.

## What is modelled

Code that changes state step by step is a class or a loop here, with the fields and branches it has
in the source. Each such method is proved equal to a step of a specification on values; the
properties are then lemmas about the specification, for all inputs, all runs or all reachable states. What each
operation does is stated a second time without the specification's own functions and constants.

* **Standard input of the runtime** (`Bytes`, `IpcFraming`, `IpcProcessor`, `StdinQueue`). On POSIX,
  `ipc_process` cuts a byte stream into lines in a 64 KiB buffer, in place. The specification is an
  automaton that sees one byte at a time and so knows nothing of reads or buffers. On Windows a thread
  assembles lines into a ring of 256 slots that the server loop drains.
* **Connection lifecycle** (`ConnectorSpec`, `ConnectorRuns`, `ConnectorEffects`, `BaseConnector`). The base connector and
  its S7, Modbus, PCCC and EtherNet/IP subclasses as one state machine. API calls, connect results
  (late ones of abandoned attempts too), ends of reads and timer firings are its steps, in any order.
* **From rows to address space** (`ObjectNodes`, `ObjectForest`, `ConfigGenerator`, `GeneratedConfig`,
  `NodePaths`, `NodeId`, `AddressSpace`, `AddressSpaceProofs`, `ClearOrder`, `UnambiguousNames`,
  `ClearAfterBuild`, `Reload`, `OwnNodes`, `ValueRouting`). A table of parent pointers kept as a forest of depth
  five, the nested tree with its dotted paths, the printed NodeIds, the pre-order build and the post-order clear,
  reloads of a running server, and the map from database rows to NodeIds that values travel by.
* **Text forms** (`Strings`, `Csv`, `Base64`, `Pem`, `PemToDer`). CSV lines and documents, DER and PEM,
  and the runtime's own PEM decoder.
* **Shared stores** (`ReadCache`, `Mappings`, `TofuProtocol`, `TofuManager`). The database read cache,
  the uniqueness of connector mappings, and the two directories of certificates that both processes use.

## What the proofs found

Several promises hold only under a condition. Each is proved with its exact condition, an if-and-only-if
over all inputs or all runs; most also have a concrete input or run that breaks them.

* Lines are delivered exactly when every terminated line is NUL-free and at most 65534 bytes long
  (`FramesAreLines`). A NUL byte silences the POSIX reader until its buffer is full (`NulSilences`).
* An exported CSV document comes back exactly when no field contains a line feed (`DocumentRoundTrip`).
* Throughout a run every tracked enabled connection has exactly one of an attempt in flight with its client, an
  armed reconnect timer and armed polling, exactly when each event of the run is harmless (`RunKeepsProgress`,
  `RunKeepsOneWay`): no stale connect result during another attempt or before a reconnect, no read failing
  during an attempt, no update with bad parameters. `StrandingRun` is a run from the beginning after which
  nothing will ever start an enabled connection again.
* A connection that was removed from the map can reconnect and poll again (`RemovedPollsRun`). It stays at rest
  throughout a run exactly when no failure callback of it arrives while the connector runs
  (`RemovedStaysQuiet`); PCCC connections always do (`PcccNeverRevives`).
* Deleting an object node fails when one of its children has the name of one of its siblings, or its
  own name, and then its variables have already moved (`Repository.Delete`, `SameNamedChildBlocks`).
  The write throws, the cache is not cleared, and a later read can be stale (`FailedDeleteLeavesStaleRead`).
* The cache stays right exactly when no throwing write changes the answer of a cached query (`CacheStaysRightIff`).
* Clearing deletes every object after all its descendants exactly when the delete order has every node
  before its parent (`ClearStrandsNoneIff`, for any names). With dot-free names this is a matter of variables
  named like an object beside them: each must find that object empty when its turn comes
  (`ClearAfterBuildStrandsNoneIff`). `ClashStrandsChild` and `EmptyClashStrandsNone` show both sides.
* The bridge between connectors and runtime looks a NodeId up by name. A map that was just built has every
  variable under the NodeId printed for it exactly when no two variables have one name in namespaces of one name
  (`RoutesRightIff`), which the schema's UNIQUE constraints ensure (`NewMapRoutesRight`). But the bridge keeps its
  map, and nothing calls `invalidateMap`. Whatever map it holds, a batch is sent as a new map would send it exactly
  when every id before the first unknown one still has an entry and, if none is unknown, every entry used is
  unchanged (`SentRightIff`). After a rename the old NodeId is used on (`RenameMisroutes`, `OldMapStays`).
* NodeIds print the place of a namespace in the list sorted by name; the runtime uses the index at which the URI
  was registered, which no reload changes. After any run of reloads a NodeId names the id under which the builder
  adds its variable exactly when the URI was appended at the printed index (`NamedAfterRunIff`); for a namespace
  of the first configuration, when it has its first place (`NamedAfterReloadsIff`). `ShiftedNamespace` adds a
  namespace that sorts earlier.
* That the id is there does not make the node the variable's. An add under a taken id is refused and leaves the
  server as it is (`RefusedIff`), and then the NodeId names an object or another variable. For any names, a
  variable gets a node of its own exactly when its id was new to the server and no object and no earlier variable
  of its namespace has it (`MakesIff`); with dot-free, unique names, when no object beside it has its name
  (`ApartIffPlain`, `ApartIffNoObject`). After any run of reloads the values that a new map sends reach the node
  made for their variable exactly when this holds and the index is as printed (`RunReachesOwnIff`,
  `SentToOwnIff`). `BesideObjectHasNone` is a variable beside an object of its name; `DottedNameSharesNode` has
  two variables with unique names and one NodeId.
* A reload clears by the new configuration, so it undoes the old build exactly when the new configuration's deletes
  cover all the ids that the build made, and no other (`ClearUndoesBuildIff`), although the clearer's header says
  that it deletes all custom nodes. With the indices as printed it asks for no delete of an id that the new one
  lacks (`ReloadOnlyAdds`).
* Rejecting a certificate between two file checks of a running verification leaves it in both stores
  (`OverlapSharesStores`). No other kind of step can do that (`DisjointIffNoLateSave`).
* A new database has UNIQUE and NOT NULL on the node of a mapping; migration 5, which the next start runs, drops
  both. Then the table accepts two mappings of one node (`TableAllowsSharedNode`), only the checks of the
  repository prevent it, and a check whose lookup throws passes. Two mappings come to share a node exactly when
  that happens to the check of a mapped node in a migrated database (`ConsistentIffNothingShared`). The comment
  on `createMapping` still names a UNIQUE constraint on nodes.
* The comment on `pem_to_der` says that the key is cleared on failure; the code leaves it to its caller,
  and the model follows the code.

## Model

| member | source | states |
|---|---|---|
| IpcProcessor.Processor.Process | runtime/src/ipc/ipc_processor.c:228-258 | after any call, whatever the read returns, the buffer and the applied lines are those of the byte automaton on all bytes read so far; every index is inside the 65536 bytes |
| IpcProcessor.Processor.ApplyLines | runtime/src/ipc/ipc_processor.c:241-250 | every line that a newline visible to `strchr` ends is applied, and what remains has no visible newline |
| IpcProcessor.Processor.ApplyLine | runtime/src/ipc/ipc_processor.c:244-250 | one line is cut off and applied unless empty; the bytes behind it are untouched |
| IpcProcessor.Processor.FindNewline | runtime/src/ipc/ipc_processor.c:244-244 | the first newline in front of any NUL byte |
| IpcProcessor.Processor.Store | runtime/src/ipc/ipc_processor.c:235-239 | the bytes read follow the bytes kept, and a terminator follows them |
| IpcProcessor.Processor.KeepRest | runtime/src/ipc/ipc_processor.c:252-258 | the unterminated rest is moved to the front, byte for byte |
| IpcProcessor.ReadExtends | runtime/src/ipc/ipc_processor.c:228-258 | handling a chunk behind kept bytes is feeding the chunk to the automaton, so the cut into reads does not matter, not even when a full buffer was thrown away early |
| IpcProcessor.AppliedLines | runtime/src/ipc/ipc_processor.c:228-258 | in every state: the applied lines are exactly the non-empty lines of the stream, in order, if and only if every terminated line is deliverable; then the buffer is the newline-free tail |
| IpcFraming.FramesAreLines | runtime/src/ipc/ipc_processor.c:228-258 | framing equals the lines of the stream if and only if each terminated line has at most 65534 bytes and no NUL |
| IpcFraming.DeliverableFrames | runtime/src/ipc/ipc_processor.c:228-258 | for deliverable lines, exactly the non-empty ones are applied, and the tail is the unterminated rest |
| IpcFraming.FramesOfNulFreeStream | runtime/src/ipc/ipc_processor.c:228-258 | in a NUL-free stream of any line lengths, an overlong line loses whole buffers and damages no other line |
| IpcFraming.FeedOverlong | runtime/src/ipc/ipc_processor.c:229-233 | what is applied of an overlong line is its end behind the discarded buffers |
| IpcFraming.NulSilences | runtime/src/ipc/ipc_processor.c:244-250 | behind a stored NUL nothing is applied until the buffer is full |
| IpcFraming.AppliedAreDeliverable | runtime/src/ipc/ipc_processor.c:228-258 | nothing empty, overlong or with a NUL is ever applied, and the kept tail fits the buffer |
| StdinQueue.Queue.ReaderByte | runtime/src/ipc/ipc_processor.c:159-182 | one byte of input changes line buffer and ring exactly as the specification's step |
| StdinQueue.Queue.Enqueue | runtime/src/ipc/ipc_processor.c:164-175 | a line is appended to the queued ones, or lost exactly when it could not be copied or 255 are queued; no unread slot changes |
| StdinQueue.Queue.Dequeue | runtime/src/ipc/ipc_processor.c:213-226 | the oldest queued line is taken out, and the others keep their order across the end of the ring |
| StdinQueue.Queue.Drain | runtime/src/ipc/ipc_processor.c:213-226 | takes out all queued lines, oldest first, and leaves the ring empty |
| StdinQueue.Queue.Duplicate | runtime/src/ipc/ipc_processor.c:161-164 | the copy handed on is the line up to its first NUL |
| StdinQueue.Queue.ReadChunk | runtime/src/ipc/ipc_processor.c:150-183 | a chunk is handled as its bytes, one by one |
| StdinQueue.RunConserves | runtime/src/ipc/ipc_processor.c:160-226 | for every interleaving, lines taken followed by lines queued are the accepted lines in order, and at most 255 are queued |
| StdinQueue.AssemblyIgnoresSchedule | runtime/src/ipc/ipc_processor.c:146-184 | the lines offered depend on the bytes alone: not on chunks, drains or the ring |
| StdinQueue.AssembledAreLines | runtime/src/ipc/ipc_processor.c:146-184 | each line of the stream is assembled on its own, without CRs, cut at 65535 bytes and at a NUL |
| StdinQueue.IntactLinesOffered | runtime/src/ipc/ipc_processor.c:146-184 | when every line is free of CR and NUL bytes and has at most 65535 bytes, exactly the non-empty lines are offered |
| StdinQueue.CrLfLine | runtime/src/ipc/ipc_processor.c:177-179 | a line ending in CR LF is passed on without its CR |
| StdinQueue.StoredIsCut | runtime/src/ipc/ipc_processor.c:159-182 | of an overlong line the first 65535 bytes are kept, and a NUL byte ends the copy |
| StdinQueue.KeptIff | runtime/src/ipc/ipc_processor.c:160-226 | a line is queued, last, if and only if it was copied and fewer than 255 wait; the oldest is taken first |
| StdinQueue.EveryRun | runtime/src/ipc/ipc_processor.c:146-226 | the three facts above together, for every run from the empty queue |
| StdinQueue.RingIsIdeal | runtime/src/ipc/ipc_processor.c:160-226 | the ring behaves as an unbounded queue if and only if the drain never falls 256 lines behind |
| BaseConnector.Connector.InitiateConnection | src/connectors/protocols/s7/index.ts:179-184 | a new client and attempt, unless one is already under way |
| BaseConnector.Connector.OnConnectResult | src/connectors/protocols/s7/index.ts:194-226 | what a connect callback does, stale or not, with the client guard before or behind the error branch as in each protocol |
| BaseConnector.Connector.PollOnce | src/connectors/protocols/pccc/index.ts:190-217 | a read starts only when connected, with a client and mappings, and for serial protocols with none outstanding |
| BaseConnector.Connector.StartPollingTimer | src/connectors/protocols/modbus-tcp/index.ts:269-334 | one poll and one interval timer, unless a timer is already held |
| BaseConnector.Connector.OnReadEnd | src/connectors/protocols/ethernet-ip/index.ts:211-284 | a read that ends badly is a connection error, except where the protocol calls it bad quality or has lost its client |
| BaseConnector.Connector.HandleConnectionError | src/connectors/core/base-connector.ts:242-256 | state, polling and reconnect timer after an error |
| BaseConnector.Connector.ScheduleReconnectTimer | src/connectors/core/base-connector.ts:271-289 | the held timer is replaced by exactly one new one |
| BaseConnector.Connector.OnReconnectTimer | src/connectors/core/base-connector.ts:279-288 | the fired timer is forgotten, and a running connector starts a fresh attempt unless one is under way |
| BaseConnector.Connector.DisconnectAndCleanup | src/connectors/core/base-connector.ts:335-348 | no client, no timers, not connecting |
| BaseConnector.Connector.constructor | src/connectors/core/base-connector.ts:42-43 | a new connector is stopped, tracks nothing and satisfies the safety invariant |
| BaseConnector.Connector.RunCallback | src/connectors/core/base-connector.ts:242-289 | a callback changes its own connection and no other; the safety invariant is kept |
| BaseConnector.Connector.AddConnectionCall | src/connectors/core/base-connector.ts:101-114 | throws exactly for a known id or bad parameters; otherwise one new tracked connection; the safety invariant is kept |
| BaseConnector.Connector.RemoveConnectionCall | src/connectors/core/base-connector.ts:119-127 | throws exactly for an unknown id; otherwise the connection is cleaned up and leaves the map; the safety invariant is kept |
| BaseConnector.Connector.UpdateConnectionCall | src/connectors/core/base-connector.ts:134-150 | cleans up, then reconfigures; bad parameters throw after the cleanup; the safety invariant is kept |
| BaseConnector.Connector.StartCall | src/connectors/core/base-connector.ts:213-222 | every tracked enabled connection gets an attempt, and no other object changes; the safety invariant is kept |
| BaseConnector.Connector.StopCall | src/connectors/core/base-connector.ts:227-234 | every tracked connection is cleaned up, and no other object changes; the safety invariant is kept |
| ConnectorEffects.PollTimerReads | src/connectors/protocols/modbus-tcp/index.ts:269-334 | an armed interval timer that fires starts one read if and only if the connection is connected, has a client and mappings, and no serial read is outstanding; otherwise nothing happens |
| ConnectorEffects.PollingReads | src/connectors/protocols/modbus-tcp/index.ts:269-334 | in every state of every run the timer of a polling connection starts a read when it fires, under the same condition, and stays armed |
| ConnectorEffects.SuccessConnects | src/connectors/protocols/s7/index.ts:194-226 | a connect success forgets its attempt; with a client the connection is up, has one polling timer and reads at once if it can |
| ConnectorEffects.FailureIsError | src/connectors/core/base-connector.ts:242-256 | a connect failure leaves the connection down, without polling, with exactly one reconnect timer if the connector runs; a PCCC failure without a client only forgets the attempt |
| ConnectorEffects.ReadEndCounts | src/connectors/protocols/ethernet-ip/index.ts:211-284 | an ended read is no longer outstanding; a failed one does the same as a connect failure |
| ConnectorEffects.ReconnectBegins | src/connectors/core/base-connector.ts:279-288 | a fired reconnect timer is forgotten; a running connector drops the client and begins a new attempt unless one is on |
| ConnectorEffects.StartBegins | src/connectors/core/base-connector.ts:213-222 | starting begins an attempt of exactly the tracked enabled connections |
| ConnectorEffects.StopCleans | src/connectors/core/base-connector.ts:227-234 | stopping cleans up exactly the tracked connections; reads and attempts that are out stay out |
| ConnectorEffects.AddMakesOne | src/connectors/core/base-connector.ts:101-114 | one blank connection is made, which begins if it is enabled and the connector runs |
| ConnectorEffects.RemoveCleans | src/connectors/core/base-connector.ts:119-127 | the connection is cleaned up and its id forgotten, and nothing else changes |
| ConnectorEffects.UpdateRestarts | src/connectors/core/base-connector.ts:134-150 | cleanup, then the new parameters and a new attempt; with bad parameters the cleanup alone |
| ConnectorRuns.StepKeepsSafe | src/connectors/core/base-connector.ts:101-289 | every step, whatever arrives when, keeps: at most one polling and one reconnect timer armed, each held by its field; connected implies a client; stopped implies quiet; serial protocols have at most one read outstanding |
| ConnectorRuns.RunKeepsSafe | src/connectors/core/base-connector.ts:101-348 | so the invariant holds after every run from a safe state |
| ConnectorRuns.InitialIsSafe | src/connectors/core/base-connector.ts:42-43 | a new connector is in such a state |
| ConnectorRuns.DeliverKeepsSafe | src/connectors/protocols/modbus-tcp/index.ts:232-334 | the same for each callback on any connection, tracked or not |
| ConnectorRuns.StoppedStaysQuiet | src/connectors/core/base-connector.ts:227-256 | no callback of a stopped connector gives a quiet connection a client or a timer |
| ConnectorRuns.StepKeepsProgress | src/connectors/core/base-connector.ts:134-289 | one step keeps every tracked enabled connection of a running connector alive if and only if it is harmless |
| ConnectorRuns.RunKeepsProgress | src/connectors/core/base-connector.ts:213-289 | so they are alive throughout a run if and only if every event of it is harmless |
| ConnectorRuns.TimelyIsHarmless | src/connectors/core/base-connector.ts:134-289 | results of the latest attempt only, no read failing during an attempt and valid updates are harmless |
| ConnectorRuns.AliveIsExactlyOne | src/connectors/core/base-connector.ts:242-289 | an alive connection has exactly one of: its latest attempt in flight with its client, a reconnect timer, connected with polling armed |
| ConnectorRuns.OneWayIffHarmless | src/connectors/core/base-connector.ts:242-289 | after a callback of an alive connection it has exactly one of them if and only if the callback is harmless |
| ConnectorRuns.RunKeepsOneWay | src/connectors/core/base-connector.ts:213-289 | and so has every tracked enabled connection in every state of a run, if and only if every event of it is harmless |
| ConnectorRuns.StaysAliveIffHarmless | src/connectors/protocols/s7/index.ts:194-285 | one callback keeps a live connection alive if and only if it is harmless to it |
| ConnectorRuns.ReadHarmlessIff | src/connectors/protocols/s7/index.ts:239-243 | a read's end harms a live connection if and only if it is a failure during an attempt |
| ConnectorRuns.SuccessHarmlessIff | src/connectors/protocols/s7/index.ts:194-226 | a connect success is harmless if and only if it is of the latest attempt, or the connection is polling or has no client |
| ConnectorRuns.FailureHarmlessIff | src/connectors/protocols/modbus-tcp/index.ts:260-263 | a connect failure is harmless if and only if it is of the latest attempt or no attempt is under way |
| ConnectorRuns.InvalidUpdateKills | src/connectors/core/base-connector.ts:134-150 | an update with bad parameters leaves no attempt, timer or polling, and the old configuration |
| ConnectorRuns.LateReadFailureStrands | src/connectors/core/base-connector.ts:271-289 | from any attempt with a read still out: the read fails, the reconnect timer fires, the attempt's success is ignored, and the connection is stuck |
| ConnectorRuns.StrandingRun | src/connectors/core/base-connector.ts:101-289 | such a run from the beginning, with every protocol, ending with a running connector, a tracked enabled connection and nothing that will start it |
| ConnectorRuns.AbandonedStaysQuiet | src/connectors/core/base-connector.ts:242-256 | a callback of an abandoned connection, while the connector runs, leaves it at rest if and only if it is no failure callback that gets past the protocol's guard |
| ConnectorRuns.RemovedConnectionPollsAgain | src/connectors/core/base-connector.ts:242-289 | any connection cleaned up during an attempt polls again after the attempt fails, except with PCCC |
| ConnectorRuns.RemovedPollsRun | src/connectors/core/base-connector.ts:101-127 | a run from the beginning through `removeConnection` after which the map is empty and a connection polls, or with PCCC stays quiet |
| ConnectorRuns.StepKeepsRemoved | src/connectors/core/base-connector.ts:101-150 | no API call touches or tracks a removed connection again |
| ConnectorRuns.RemovedStaysQuiet | src/connectors/core/base-connector.ts:119-127 | it is out of the map and at rest in every state of a run if and only if no such failure callback arrives while the connector runs |
| ConnectorRuns.PcccNeverRevives | src/connectors/protocols/pccc/index.ts:160-182 | for PCCC no run has such a callback |
| ObjectNodes.Repository.Create | src/db/repositories/object-node-repository.ts:44-103 | the table stays a forest of depth at most 5 with unique siblings and existing references; each error exactly under its condition, a duplicate exactly for a row of the same namespace, parent and name |
| ObjectNodes.Repository.Delete | src/db/repositories/object-node-repository.ts:129-152 | completes if and only if the siblings are uniquely named once the children have moved up; otherwise the variables have moved and the tree has not changed; all invariants hold either way |
| ObjectNodes.MovesUpIff | src/db/repositories/object-node-repository.ts:144-150 | which is when no moved child meets a row of the same namespace, parent and name |
| ObjectNodes.AtLimit | src/db/repositories/object-node-repository.ts:69-84 | a row is at the limit, where nothing can be created below it, if and only if the fourth row above it is a root |
| ObjectNodes.Repository.CreateNode | src/db/repositories/node-repository.ts:70-109 | a variable is inserted unless its name is used in its namespace or a reference is missing; all invariants are kept |
| ObjectNodes.Repository.ComputeDepth | src/db/repositories/object-node-repository.ts:157-172 | terminates with the true depth, at most 5 |
| ObjectNodes.InsertKeepsForest | src/db/repositories/object-node-repository.ts:69-84 | a row below a parent of depth under 5 keeps every row at a depth of at most 5 |
| ObjectNodes.DeleteLifts | src/db/repositories/object-node-repository.ts:139-150 | after a delete a row's chain of parents is one shorter if it ran through the deleted node, and otherwise as long as before |
| ObjectNodes.DeleteLiftsDescendants | src/db/repositories/object-node-repository.ts:139-150 | so exactly the descendants rise, by one level |
| ObjectNodes.DeleteKeepsForest | src/db/repositories/object-node-repository.ts:139-150 | the table is again a forest of depth at most 5 |
| ObjectNodes.DeleteKeepsUnique | src/db/repositories/object-node-repository.ts:139-150 | siblings stay uniquely named |
| ObjectNodes.DeleteLosesNothingElse | src/db/repositories/object-node-repository.ts:139-150 | no other row is lost or renamed, and nothing refers to the deleted id |
| ObjectNodes.SameNamedChildBlocks | src/db/repositories/object-node-repository.ts:144-150 | a child with its parent's name makes the delete fail |
| ObjectNodes.ForestIsAcyclic | src/db/repositories/object-node-repository.ts:44-172 | any row list taken from a reachable table is acyclic, as the generator and the exporter need |
| ConfigGenerator.ToObjectNodeConfigs | src/config-generator/index.ts:198-228 | the linked objects spell the nested tree of the rows, dotted paths included |
| ConfigGenerator.LinkNodes | src/config-generator/index.ts:212-225 | every node's children are the rows that name it as parent, in order; the roots are the rows without a parent among the rows |
| ConfigGenerator.ComputeObjectNodePath | src/config-generator/index.ts:234-248 | the dotted path of any reference, dangling ones included |
| ConfigGenerator.BuildTree | src/db/repositories/object-node-repository.ts:177-210 | the repository's tree has the same shape for every namespace name |
| ConfigGenerator.LinkedSpells | src/config-generator/index.ts:212-225 | shared, mutated node objects form exactly the tree below each row |
| ObjectForest.EveryRowOnce | src/config-generator/index.ts:198-228 | every row is in the tree exactly once, and nothing else is |
| ObjectForest.ForestIsDotted | src/config-generator/index.ts:198-248 | each node's path is its tree parent's path, a dot and its name |
| ObjectForest.PathHasDots | src/config-generator/index.ts:234-248 | a path is the parent's path, or the namespace's name, a dot and the row's name; a reference has its row's path, a dangling one the namespace's |
| ObjectForest.TreeIsRow | src/config-generator/index.ts:212-225 | each node of the nested tree has its row's id, name and path, and the trees of its child rows |
| ObjectForest.ChildrenInOrder | src/config-generator/index.ts:212-225 | children stand in the order of the rows |
| ObjectForest.RootsInOrder | src/config-generator/index.ts:212-225 | and so do roots |
| ObjectForest.RootsAre | src/config-generator/index.ts:212-225 | which are the rows that name no parent, or one that is not among the rows |
| ObjectForest.RefPathInForest | src/config-generator/index.ts:267-272 | the path of any reference is the namespace's or one in the emitted tree |
| ObjectForest.PathsDistinct | src/config-generator/index.ts:234-248 | with dot-free names, different under one parent, different rows have different paths |
| GeneratedConfig.BuildNodes | src/config-generator/index.ts:253-300 | each variable is printed below its object node, or below the namespace, with the index of its namespace |
| GeneratedConfig.VariableIsPrinted | src/config-generator/index.ts:253-300 | name, data type and parent path of a variable, and its NodeId: `ns=`, the index, `;s=`, the parent path, a dot and the name |
| GeneratedConfig.NamespaceIsPrinted | src/config-generator/index.ts:165-185 | name, URI, objects and variables of a namespace, in order, with indices from 2 |
| NodePaths.GetObjectNodePath | src/api/routes/nodes.ts:72-83 | the slash-joined names from the root down to the row |
| NodePaths.FindObjectNodeByPath | src/api/routes/nodes.ts:146-161 | the row the trimmed, non-empty parts lead to, or none |
| NodePaths.PathUpThenDown | src/api/routes/nodes.ts:72-161 | importing an exported path finds the same object node |
| NodePaths.PathDownThenUp | src/api/routes/nodes.ts:72-161 | any object node found for a path has that path, normalised |
| NodePaths.ExportedWithSlashes | src/api/routes/nodes.ts:72-83 | an exported path is the parent's, a slash and the name; it is empty for no row |
| NodePaths.PartsBetweenSlashes | src/api/routes/nodes.ts:146-161 | the names searched for are what stands between the slashes of a path |
| NodePaths.BlanksIgnored | src/api/routes/nodes.ts:148-149 | white space around a name, and parts of nothing else, make no difference |
| Strings.TrimCuts | src/api/routes/nodes.ts:148-148 | trimming takes all white space off both ends and nothing else |
| Strings.AsciiSpace | src/api/routes/nodes.ts:148-148 | in ASCII, white space is the blank and the characters 9 to 13 |
| NodeId.ParseNodeIdString | runtime/src/util/node_id_parser.c:7-56 | the parser, pointer by pointer, accepts and returns what the specification says, on every platform, null pointer included |
| NodeId.StrToUl | runtime/src/util/node_id_parser.c:26-27 | the value of the leading digits, capped where the platform's unsigned long ends, and where they end |
| NodeId.ParsePrint | runtime/src/util/node_id_parser.c:7-56 | parsing a printed NodeId gives back index and identifier, for every index up to 65535 and an identifier that may contain ";s=" |
| NodeId.AcceptedIffForm | runtime/src/util/node_id_parser.c:7-56 | a string is accepted if and only if it is `ns=`, digits of a 16-bit number, `;s=` and a non-empty identifier |
| NodeId.ParseForm | runtime/src/util/node_id_parser.c:7-56 | and then the result is those two parts |
| NodeId.PrintInjective | src/config-generator/index.ts:272-272 | different ids print differently |
| NodeId.DecimalDigits | src/config-generator/index.ts:272-272 | indices are printed and read as decimal numbers |
| NodeId.StrStrAgrees | runtime/src/address_space/address_space_builder.c:219-231 | the builder's search for the first ";s=" finds the parser's identifier |
| AddressSpace.CreateObjectNodesRecursive | runtime/src/address_space/address_space_builder.c:144-187 | the recursive loop adds objects in pre-order |
| AddressSpace.CreateVariableNode | runtime/src/address_space/address_space_builder.c:191-264 | parent, id and skipping of one variable |
| AddressSpace.AddressSpaceBuild | runtime/src/address_space/address_space_builder.c:268-318 | the whole build is the specification's fold over the namespaces |
| AddressSpace.DeleteObjectNodesRecursive | runtime/src/address_space/address_space_clearer.c:12-32 | the recursive loop deletes objects in post-order |
| AddressSpace.AddressSpaceClear | runtime/src/address_space/address_space_clearer.c:36-105 | the whole clear is the specification's fold over the namespaces |
| AddressSpace.ObjectForms | runtime/src/address_space/address_space_builder.c:150-186 | an object without a name is passed over with its children; without a path its name is its id, and it is not cleared |
| AddressSpace.VariableForms | runtime/src/address_space/address_space_builder.c:195-238 | a variable needs a name and a type; without a NodeId that can be parsed, the NodeId's text or the name is its id, and it is not cleared |
| AddressSpace.NamespaceForms | runtime/src/address_space/address_space_builder.c:275-302 | a namespace without a URI is passed over; without a name its objects hang below the Objects folder |
| AddressSpaceProofs.BuildHasNoOrphans | runtime/src/address_space/address_space_builder.c:268-318 | for every generated configuration, dangling object-node references included, no add names a parent the server lacks |
| AddressSpaceProofs.BuildNamespaceGrows | runtime/src/address_space/address_space_builder.c:290-314 | building a namespace adds exactly its ids and changes no node that was there |
| AddressSpaceProofs.BuildObjectsGrows | runtime/src/address_space/address_space_builder.c:144-187 | the pre-order walk of any tree finds every parent it names |
| AddressSpaceProofs.RegisteredIndex | src/config-generator/index.ts:172-175 | on a fresh server the i-th custom namespace is registered at i + 2, the index printed in its NodeIds |
| AddressSpaceProofs.FoundIndex | runtime/src/address_space/address_space_clearer.c:69-74 | and the clearer finds it there again |
| AddressSpaceProofs.VariableIdsAgree | runtime/src/address_space/address_space_clearer.c:77-89 | the id the clearer parses is the id the builder created |
| AddressSpaceProofs.ClearUndoesBuild | runtime/src/address_space/address_space_clearer.c:58-101 | clearing the configuration that was built deletes exactly the created ids: the node set is the one before the build |
| ClearOrder.PostOrderStrandsNone | runtime/src/address_space/address_space_clearer.c:12-32 | when each tree node's children in the server are its tree children, no delete leaves a child behind |
| ClearOrder.BuildOwns | runtime/src/address_space/address_space_builder.c:144-187 | a build without repeated ids makes a server of that kind |
| ClearOrder.ClearStrandsNoneIff | runtime/src/address_space/address_space_clearer.c:58-101 | for any server and configuration: the clear leaves no child behind if and only if its delete order has every node before its parent |
| ClearOrder.DeleteOrderClears | runtime/src/address_space/address_space_clearer.c:58-101 | the clear is the deletes of that order: variables, objects in post-order, root, namespace by namespace |
| ClearOrder.NamespaceStrandsIff | runtime/src/address_space/address_space_clearer.c:76-100 | in a namespace whose objects are in tree order, only the variables can leave a child behind |
| UnambiguousNames.IdsDistinct | src/config-generator/index.ts:234-272 | with dot-free names two ids of a namespace are equal if and only if their places and names are |
| UnambiguousNames.PlainObjectsAreDistinct | src/config-generator/index.ts:198-248 | and no two objects have one id |
| ClearAfterBuild.BuildSettles | runtime/src/address_space/address_space_builder.c:290-314 | after its build, every object and variable of a namespace hangs below its own place, even a variable whose id was taken |
| ClearAfterBuild.ClearAfterBuildStrandsNoneIff | runtime/src/address_space/address_space_clearer.c:58-101 | for generated namespaces with dot-free names: the clear after a build strands no child if and only if each variable with the place and name of an object finds that object empty at its turn |
| ClearAfterBuild.NoClashStrandsNone | runtime/src/address_space/address_space_clearer.c:58-101 | so none is stranded when no variable is named like an object beside it |
| ClearAfterBuild.ClashStrandsChild | runtime/src/address_space/address_space_clearer.c:76-94 | rows of a namespace whose build and clear leave a child behind |
| ClearAfterBuild.EmptyClashStrandsNone | runtime/src/address_space/address_space_clearer.c:76-94 | rows with a clash that does not |
| ValueRouting.IpcBridge.BuildNodeIdMap | src/connectors/core/ipc-bridge.ts:97-116 | the loops over namespaces and nodes record each NodeId under the row the query by names returns |
| ValueRouting.LastIsRecorded | src/connectors/core/ipc-bridge.ts:102-112 | a NodeId is recorded over an earlier one of the same row |
| ValueRouting.IpcBridge.HandleValueUpdates | src/connectors/core/ipc-bridge.ts:35-70 | which updates pass the filter, when the map is built anew, and the NodeIds sent |
| ValueRouting.IpcBridge.HandleInvalidated | src/connectors/core/ipc-bridge.ts:84-90 | after an invalidation a batch is sent as the newest map says |
| ValueRouting.UpToDateResolves | src/connectors/core/ipc-bridge.ts:35-70 | with a map that is not out of date exactly the known updates are sent, each with its NodeId |
| ValueRouting.SentRightIff | src/connectors/core/ipc-bridge.ts:35-70 | whatever map the bridge holds, a batch is sent as a new map would send it if and only if every id before the first unknown one is in the new map and, when none is unknown, the old entries used are the new ones |
| ValueRouting.OldMapStays | src/connectors/core/ipc-bridge.ts:46-60 | a batch leaves the map as it is if and only if it has no unknown id or the map is the newest |
| ValueRouting.RenameMisroutes | src/connectors/core/ipc-bridge.ts:35-70 | after a rename the values of the variable are sent to a NodeId that the new configuration does not have |
| ValueRouting.RoutesRightIff | src/connectors/core/ipc-bridge.ts:97-116 | a map built on the spot has every variable under the NodeId printed for it if and only if no two have the same name in namespaces of the same name |
| ValueRouting.NewMapRoutesRight | src/db/schema.sql:11-47 | the UNIQUE constraints on names see to that |
| ValueRouting.SentToOwnIff | src/connectors/core/ipc-bridge.ts:35-116 | with a new map and a server just reloaded, a variable's NodeId parses to the id of the node made for that variable if and only if its namespace is registered at the printed index and no object and no earlier variable has its id |
| ValueRouting.ParsedIdIsBuiltIff | runtime/src/ipc/ipc_processor.c:62-75 | about ids: on any server the runtime parses a generated NodeId to the id that the builder uses if and only if the namespace is registered at the printed index; something has that id after the build |
| ValueRouting.ParsedIdIsBuilt | runtime/src/ipc/ipc_processor.c:62-75 | about ids: on a fresh server it always does |
| OwnNodes.MakesIff | runtime/src/address_space/address_space_builder.c:191-264 | for any names and any server: the add of a variable makes a node if and only if no node had its id before the build, and no object and no earlier variable of its namespace has it |
| OwnNodes.RefusedIff | runtime/src/address_space/address_space_builder.c:246-260 | an add changes nothing at all if and only if it does not make the variable's node |
| OwnNodes.TurnAdds | runtime/src/address_space/address_space_builder.c:306-314 | the steps used for this are those of the build: each variable is added to the build of the configuration cut before it |
| OwnNodes.TurnsEnd | runtime/src/address_space/address_space_builder.c:268-318 | and the build goes on from the last of them |
| OwnNodes.ApartIffPlain | src/config-generator/index.ts:234-272 | with dot-free names, no object and no earlier variable has a variable's id if and only if none has its place and name |
| OwnNodes.ApartIffNoObject | src/db/schema.sql:36-47 | and with unique variable names, if and only if no object beside it has its name |
| OwnNodes.FirstReachesOwnIff | runtime/src/address_space/address_space_builder.c:268-318 | at the first build of a fresh server a NodeId names the node made for its variable if and only if no object and no earlier variable has the id |
| OwnNodes.ReloadReachesOwnIff | runtime/src/server.c:100-120 | after a reload of any server, if and only if moreover the namespace is registered at the printed index |
| OwnNodes.RunReachesOwnIff | runtime/src/server.c:100-120 | after any run of reloads, where that index is the place at which the URI was appended to the namespace table, in whichever reload |
| OwnNodes.BesideObjectHasNone | runtime/src/address_space/address_space_builder.c:246-260 | a variable A beside object A gets no node, and its NodeId names the object |
| OwnNodes.DottedNameSharesNode | src/config-generator/index.ts:267-272 | with unique names, a variable "A.B" and a variable B in object A have one NodeId, and only the first gets a node |
| Reload.NamedAfterRunIff | runtime/src/server.c:100-120 | about ids: after any run of reloads a NodeId names the id under which its variable is added if and only if its URI, whenever first seen, was appended at the printed index |
| Reload.NamedAfterReloadsIff | runtime/src/server.c:100-120 | about ids: for a namespace of the first configuration, if and only if it has its first place in the list |
| Reload.ShiftedNamespace | src/config-generator/index.ts:165-185 | rows with a new namespace that sorts earlier, after which a NodeId names no node |
| Reload.BuildAddsAll | runtime/src/address_space/address_space_builder.c:268-318 | on any server a build adds exactly the ids at the registered indices, changes no node that was there, and appends exactly the new URIs |
| Reload.ClearRemovesAll | runtime/src/address_space/address_space_clearer.c:58-101 | on any server the clear by any generated configuration deletes exactly the variables at the printed and the objects at the registered indices, of known namespaces |
| Reload.ClearedIsBuiltIff | runtime/src/address_space/address_space_clearer.c:69-100 | what it deletes of a namespace is what a build creates of it if and only if the two indices are equal or there is no variable |
| Reload.ClearUndoesBuildIff | runtime/src/address_space/address_space_clearer.h:6-7 | on any server, clearing by another configuration than the one built restores the nodes if and only if its deletes cover all that was made, and nothing that was there before |
| Reload.ReloadOnlyAdds | runtime/src/server.c:100-120 | with the indices as printed, a reload deletes nothing for good: all nodes stay and those of the new configuration are added |
| ValueRouting.NodeIdsApart | src/config-generator/index.ts:267-272 | with dot-free names, variables of different names or namespaces have different NodeIds |
| Csv.ParseCsvLine | src/utils/csv.ts:20-61 | the character loop computes the fields of the specification |
| Csv.ParseInvertsLine | src/utils/csv.ts:10-61 | parsing inverts escaping and joining for every non-empty list of arbitrary strings (section 2 of RFC 4180) |
| Csv.WrittenAsIs | src/utils/csv.ts:10-15 | a field is written as it is if and only if it holds no comma, quote, line feed or carriage return, and otherwise in quotes |
| Csv.QuotesAreDoubled | src/utils/csv.ts:12-12 | with each quote inside doubled |
| Csv.PiecesMakeField | src/utils/csv.ts:20-61 | quoted and plain pieces make up one field, wherever the quotes stand, and a comma ends it |
| Csv.UnclosedQuote | src/utils/csv.ts:20-61 | an unclosed quote takes in the rest of the line |
| Csv.SeparatorsAre | src/api/routes/nodes.ts:86-106 | commas between fields, line feeds between lines |
| Csv.BothBreaksSplit | src/api/routes/nodes.ts:164-164 | LF and CR LF both separate lines, in any mixture |
| Csv.BlankLinesDropped | src/api/routes/nodes.ts:164-164 | exactly the lines of white space alone are passed over |
| Csv.ExportDocument | src/api/routes/nodes.ts:86-106 | the document is the lines of all rows, joined |
| Csv.ImportDocument | src/api/routes/nodes.ts:164-193 | the rows read are the fields of the non-blank lines |
| Csv.RowIsOneLine | src/api/routes/nodes.ts:164-164 | a row is read as one line if and only if no field has a line feed |
| Csv.DocumentRoundTrip | src/api/routes/nodes.ts:86-193 | header and rows come back if and only if no field has a line feed |
| Base64.SextetsInverse | src/cert-generator/cert-utils.ts:21-46 | the six-bit groups of any bytes give back the bytes, in all three padding cases (section 4 of RFC 4648) |
| Base64.SameBits | src/cert-generator/cert-utils.ts:21-46 | three bytes and their four groups are the same 24 bits, a short rest is filled up with zero bits (section 4 of RFC 4648) |
| Base64.CodeIsAlphabet | src/cert-generator/cert-utils.ts:21-46 | the letters, digits and signs of the groups, and the pad |
| Base64.DecodedIsAlphabet | src/cert-generator/cert-utils.ts:46-46 | exactly they are decoded, each to its own group |
| Base64.ForeignAreSkipped | src/cert-generator/cert-utils.ts:46-46 | a foreign character is passed over, and nothing behind the first pad is read |
| Base64.StrictFailsIff | runtime/src/security/security_config.c:70-82 | the strict decoder fails exactly on a foreign character or an incomplete group |
| Base64.DecodeLenientOfEncoded | src/cert-generator/cert-utils.ts:46-46 | the decoder that skips foreign characters inverts the encoder |
| Base64.DecodeBlockOfEncoded | runtime/src/security/security_config.c:70-82 | the strict decoder returns the bytes followed by one zero for each pad |
| Pem.DerToPem | src/cert-generator/cert-utils.ts:20-29 | the text between the literal markers is lines whose concatenation is the base64 text, each of exactly 64 characters but a last one of 1 to 64 |
| Pem.PemRoundTrip | src/cert-generator/cert-utils.ts:20-47 | `pemToDer(derToPem(b)) == b` for every byte sequence (section 2 of RFC 7468) |
| Pem.AnyLayoutIsRead | src/cert-generator/cert-utils.ts:40-47 | whatever white space stands between the markers, the bytes are read |
| Pem.SpaceIsRemoved | src/cert-generator/cert-utils.ts:44-44 | every white-space character goes, and no other |
| PemToDer.Run | runtime/src/security/security_config.c:25-93 | the key is replaced by the decoded body, or left alone and -1 returned |
| PemToDer.FindBody | runtime/src/security/security_config.c:26-45 | the body starts behind the first line feed and ends at the first "-----END", all reads in bounds |
| PemToDer.StripBreaks | runtime/src/security/security_config.c:47-59 | the body without CR and LF, in a buffer of the body's size |
| PemToDer.DecodeText | runtime/src/security/security_config.c:61-82 | the decoded bytes less the padding, inside the buffer allotted |
| PemToDer.DecodesBetween | runtime/src/security/security_config.c:25-93 | what stands between the first line feed and the tag is decoded, whatever it is |
| PemToDer.BreaksAreFiltered | runtime/src/security/security_config.c:47-59 | bytes 10 and 13 go, and no other |
| PemToDer.BodyDecodes | runtime/src/security/security_config.c:61-82 | a body fails exactly when it is empty or cannot be decoded; each of its last two characters that is a pad takes one byte off |
| PemToDer.NoBodyNoKey | runtime/src/security/security_config.c:26-45 | without the tag, or a line feed in front of it, there is no key |
| PemToDer.TagIsText | runtime/src/security/security_config.c:33-41 | the tag is the text `-----END` |
| PemToDer.ConvertsWrittenKey | runtime/src/security/security_config.c:25-93 | for any header without the end tag, body at any line width with LF or CRLF, the result is exactly the encoded bytes; it fails if and only if there are none |
| PemToDer.ConvertsApiPem | runtime/src/security/security_config.c:25-93 | the runtime reads what the control API's `derToPem` writes |
| ReadCache.Database.ReadWithCache | src/db/database.ts:293-312 | a step of the cache's specification; any value returned is the query's on the current data; none exactly when the query cannot be answered and nothing is cached |
| ReadCache.Database.Write | src/db/database.ts:319-328 | a step of the cache's specification; a completed write empties the cache; a throwing one keeps it right if and only if it changed no cached answer |
| ReadCache.Database.LookUp | src/db/repositories/connector-repository.ts:471-508 | a lookup that swallows exceptions never finds a row that is not there, and misses one that is exactly when the database was closed, its last probe failed or the statement throws |
| Mappings.ConnectorRepository.NodeExists | src/db/repositories/connector-repository.ts:471-479 | the node is there, and the lookup neither lacks a connection nor throws |
| Mappings.ConnectorRepository.NodeIsMapped | src/db/repositories/connector-repository.ts:484-493 | the same for the node's mapping |
| Mappings.ConnectorRepository.AddressIsMapped | src/db/repositories/connector-repository.ts:498-507 | the same for the address's mapping |
| Mappings.ConnectorRepository.FindConnectionById | src/db/repositories/connector-repository.ts:162-172 | the connection there is, from the database or the cache; an error exactly when neither can answer |
| Mappings.ConnectorRepository.FindMappingById | src/db/repositories/connector-repository.ts:340-349 | the same for a mapping |
| ReadCache.Database.Close | src/db/database.ts:333-339 | a closed database is never accessible again, and the cache stays |
| ReadCache.ReachingReadHeals | src/db/database.ts:293-312 | a read that reaches the database answers from it and corrects its entry |
| ReadCache.CutOffRead | src/db/database.ts:293-312 | one that does not changes nothing and answers what was cached |
| ReadCache.WritesAre | src/db/database.ts:319-328 | only a completed write empties the cache; a thrown one keeps it with the data it left |
| ReadCache.CacheStaysRightIff | src/db/database.ts:264-328 | in a run the cache is right throughout if and only if no throwing write changes a cached answer; then every read is right |
| ReadCache.CachedReadsAreFresh | src/db/database.ts:264-328 | in every run whose throwing writes leave the data alone, each cached read equals its query on the current data |
| ReadCache.FailedDeleteLeavesStaleRead | src/db/repositories/object-node-repository.ts:129-152 | an object-node delete that fails half-way makes a later cached read stale |
| Mappings.ConnectorRepository.CreateMapping | src/db/repositories/connector-repository.ts:243-313 | cached read, checks and write as specified, whatever the file system does at each; which of them go wrong follows from reachability, cache and exceptions; the exact condition under which uniqueness survives |
| Mappings.ConnectorRepository.UpdateMapping | src/db/repositories/connector-repository.ts:355-423 | the same for updates, empty and null values included |
| Mappings.ConnectorRepository.DeleteMapping | src/db/repositories/connector-repository.ts:428-445 | the row is gone, or NOT_FOUND |
| Mappings.ConnectorRepository.CreateMappingsBulk | src/db/repositories/connector-repository.ts:450-464 | the loop equals folding `createMapping`, up to an exception, for calls that go wrong as their moments say |
| Mappings.CreateStores | src/db/repositories/connector-repository.ts:243-313 | a create that is done has stored exactly the connection, node and address asked for; any other changes nothing |
| Mappings.CreateOutcomes | src/db/repositories/connector-repository.ts:243-313 | when all calls go well: done exactly when references, NOT NULL and both uniqueness rules allow the row, NOT_FOUND and DUPLICATE_ERROR exactly for their reasons |
| Mappings.UpdateStores | src/db/repositories/connector-repository.ts:355-423 | an update that is done has changed only its row, and there only the fields provided |
| Mappings.UpdateOutcomes | src/db/repositories/connector-repository.ts:355-423 | when all calls go well: done exactly when the row asked for is allowed |
| Mappings.UpdateErrors | src/db/repositories/connector-repository.ts:355-423 | and NOT_FOUND and DUPLICATE_ERROR exactly for their reasons |
| Mappings.DeleteStores | src/db/repositories/connector-repository.ts:428-445 | a delete takes out its row and nothing else |
| Mappings.CascadesAre | src/db/schema.sql:96-105 | deleting a connection or a node takes exactly its mappings along |
| Mappings.BulkCreatesInOrder | src/db/repositories/connector-repository.ts:450-464 | the created mappings are in the order of their requests |
| Mappings.BulkEndsAtException | src/db/repositories/connector-repository.ts:450-464 | an exception ends the bulk at its request; all before it are created or reported |
| Mappings.CreateKeepsConsistentIff | src/db/repositories/connector-repository.ts:243-313 | create keeps both uniqueness rules if and only if it does not store past a throwing lookup of its node's mapping; it changes nothing when it fails |
| Mappings.UpdateKeepsConsistentIff | src/db/repositories/connector-repository.ts:355-423 | the same for update |
| Mappings.BulkKeepsConsistentIff | src/db/repositories/connector-repository.ts:450-464 | and for bulk create, also when it throws half-way |
| Mappings.BulkOnlyAdds | src/db/repositories/connector-repository.ts:450-464 | bulk create only adds rows, under its own new ids |
| Mappings.BulkErrorsInOrder | src/db/repositories/connector-repository.ts:454-461 | errors carry the index of their request, in order |
| Mappings.BulkSplitsRequests | src/db/repositories/connector-repository.ts:450-464 | when nothing throws, every request is either created or reported as an error, once |
| Mappings.ConsistentIffNothingShared | src/db/repositories/connector-repository.ts:243-508 | in every state of a run no two mappings share a connection and address or a node, if and only if no operation stores past such a lookup |
| Mappings.TableAllowsSharedNode | src/db/schema.sql:96-105 | the table itself accepts a second mapping of a node, on the same or another connection, if and only if migration 5 has replaced it |
| Mappings.LoadMappings | src/config-generator/index.ts:306-329 | the lookup holds type, host and address of every mapping of the namespace and nothing else: no entry is overwritten |
| TofuProtocol.RefusedUntilReleased | runtime/src/security/tofu_verifier.c:63-95 | once a certificate is in the reject store, every verification of it that reads the store later is refused until the API trusts it or deletes the rejected copy, in every interleaving |
| TofuProtocol.VerdictsAreFinal | runtime/src/security/tofu_verifier.c:63-95 | no later step changes a verdict given |
| TofuProtocol.OnlySaveOverlaps | runtime/src/security/tofu_verifier.c:77-95 | of all steps exactly the save of a certificate rejected meanwhile puts it in both stores |
| TofuProtocol.DisjointIffNoLateSave | src/tofu-manager/tofu-manager.ts:77-119 | so a run keeps the stores disjoint if and only if it has no such save |
| TofuProtocol.RejectsApartKeepsDisjoint | src/tofu-manager/tofu-manager.ts:107-119 | it has none when no certificate is rejected while a verification of it is past its reject check |
| TofuProtocol.SeparateKeepsDisjoint | src/tofu-manager/tofu-manager.ts:77-199 | in particular when verifications and API calls do not overlap |
| TofuProtocol.OverlapSharesStores | runtime/src/security/tofu_verifier.c:63-95 | the run that leaves a certificate in both stores and accepts it after its rejection |
| TofuProtocol.SharedCertificate | src/tofu-manager/tofu-manager.ts:77-199 | a certificate in both stores: trusting conflicts, deleting leaves it rejected, rejecting again heals |
| TofuProtocol.RejectThenTrust | src/tofu-manager/tofu-manager.ts:107-199 | trusting a rejected certificate restores the stores |
| TofuProtocol.Verified | runtime/src/security/tofu_verifier.c:63-95 | an undisturbed verification refuses exactly the certificates in the reject store, saves every other one if it can, changes nothing else and keeps the stores disjoint |
| TofuProtocol.GoodIsTrusted | runtime/src/security/tofu_verifier.c:73-95 | in any interleaving, the step that ends a verification Good leaves its certificate in the trust store unless the file cannot be written |
| TofuProtocol.GoodWasTrusted | runtime/src/security/tofu_verifier.c:63-95 | so in every run each verification that ended Good had its certificate trusted then, or its last step could not write |
| TofuProtocol.UntrustedIsRejected | runtime/src/security/tofu_verifier.c:47-71 | a refusal means unreadable directories, or a rejected certificate at that step |
| TofuProtocol.CallsTouchOwn | src/tofu-manager/tofu-manager.ts:77-199 | a step of an API call moves or removes its own certificate alone |
| TofuManager.TofuManager.RejectCertificate | src/tofu-manager/tofu-manager.ts:107-119 | an undisturbed call equals its steps; reply and both stores for every case |
| TofuManager.TofuManager.TrustCertificate | src/tofu-manager/tofu-manager.ts:180-199 | the same the other way round, with NOT_FOUND before CONFLICT |
| TofuManager.TofuManager.DeleteCertificate | src/tofu-manager/tofu-manager.ts:77-100 | the trusted copy first, else the rejected one, else NOT_FOUND |
| TofuManager.TofuVerifyCertificate | runtime/src/security/tofu_verifier.c:42-95 | an undisturbed call equals its steps; unreadable directories refuse; an accepted certificate is in the trust store afterwards if it could be written, and nothing else changes |

## Left out

Assumptions about what the source relies on:

- Operating system, PLC libraries, SQLite and the OPC UA stack: their answers are parameters or steps; the server is its namespace table and its nodes with their parents, and deletes are not trusted to remove subtrees.
- SQLite is taken to enforce the keys, foreign keys and UNIQUE constraints of `schema.sql`, and to write nothing when a statement fails.
- Strings are sequences of characters and C strings are NUL-free sequences; case folding and encodings are not modelled.
- `Buffer.from(text, 'base64')` is taken to skip characters outside the alphabet and to stop at the first `=`.

Members whose contract says less than the source does:

- IpcProcessor.Processor.Process: a line is handed over as bytes; parsing its JSON and writing the value to the server are left out.
- StdinQueue.Queue.ReaderByte: the lock is not modelled; its critical sections are the atomic steps.
- BaseConnector.Connector.StartPollingTimer: a library call that throws inside the first poll, before the timer is set, is not modelled.
- ConnectorRuns.StepKeepsSafe: cached values, quality updates, mappings beyond "there are some", log lines and exceptions thrown inside a poll are not part of a connection.
- BaseConnector.Connector.OnReadEnd: which PCCC and EtherNet/IP results count as failed is a parameter, and a Modbus poll is one read; single addresses that fail without losing the connection are a read that ends with values.
- AddressSpaceProofs.ClearUndoesBuild: for one and the same configuration on a fresh server; `ClearUndoesBuildIff` and `ReloadOnlyAdds` are about any server and a new configuration.
- Reload.ReloadOnlyAdds: about the deletes that the clearer asks for; the stack may delete children along with a parent, which is not modelled.
- PemToDer.DecodeText: the blanks `EVP_DecodeBlock` trims at the ends of its input are not modelled.
- PemToDer.Run: failing allocations, the blanks `EVP_DecodeBlock` trims at the ends of its input, and lengths beyond a C int are not modelled.
- ReadCache.Database.ReadWithCache: each key is bound to one query; `SecurityRepository`, which sets a shared key itself, breaks that.
- Mappings.ConnectorRepository.CreateMapping: descriptions, timestamps, and the SELECT that reads the new row back inside the write, should it throw, are left out.
- Mappings.ConnectorRepository.UpdateMapping: the same.
- Mappings.ConnectorRepository.CreateMappingsBulk: whether a connection is still cached when its request comes is left open.
- Mappings.LoadMappings: the host is a field of the connection; parsing the JSON it comes from is left out.
- GeneratedConfig.BuildNodes: initial values and the entries for mapped variables, which the runtime's build ignores or does not place by, are left out of a node.
- ValueRouting.IpcBridge.HandleValueUpdates: values, qualities and timestamps, writing to the pipe, and a map build that throws are left out.
- ValueRouting.IpcBridge.HandleInvalidated: the use `invalidateMap` is meant for; no code calls it.
- Csv.ImportDocument: the checks of the header and of the number of lines and columns are left out, as they need case folding or only reject.
- TofuManager.TofuVerifyCertificate: the contents of the file written, which may be cut short, are left out; a certificate is its thumbprint.

Parts of the repository that are not modelled:

- The user interface, Express routing, authentication, event streams and log buffers.
- Which PCCC and EtherNet/IP read results count as a lost connection: a read's end is one of three kinds.
- Parameter, IP and DNS validation, formatting of durations, and the S7 and Modbus address parsers: one-branch facts.
- Certificate generation, SHA-1, X.509 and RSA; the endpoint filters of the security configuration.
- Initial values and data types of variables in the configuration and in the address space.
- Namespace deletion, a single statement whose cascades take the namespace's rows along, and columns of the CSV import beyond splitting and paths.
- Listing certificates and the reload signal, which the runtime only acknowledges.
