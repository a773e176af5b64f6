# Verified model of llama-chip

llama-chip puts several llama-server processes behind one HTTP endpoint and lets machines share
them. This project models the parts of it whose correctness is not visible from one body, and
proves what they promise. `dafny verify dfyconfig.toml` checks everything.

| area | modules |
|---|---|
| the system-turn fold and its key-ordered JSON object | `JsonTokens`, `OrderedObject`, `JsonLayout`, `SystemFold`, `FoldLaws`, `FoldBody`, `FoldReading` |
| the slot supervisor against its stoppers and child processes | `Supervisor`, `Ring` |
| slot registry, placement, profiles, ports | `Placement` (meaning, on values), `Registry` (the class changed in place) |
| GGUF metadata | `Gguf` (format), `GgufReader` (the reader and the header) |
| federation routes, hub roster, tokens | `Routes`, `Hub`, `HubSystem`, `Gossip`, `Tokens` |
| routing choice, model list, context size | `Dispatch`, `Proxy`, `ContextGuess` |
| shared | `Wrappers`, `Text`, `Sorting` |

How to read it:

- What the source does with loops over variables or fields is a method or a class here, proved
  equal to a specification function of its inputs or of its old state; the promises are lemmas
  about those functions. The registry's lemmas in `Placement`, for instance, speak of a list of
  entries, and every `Registry.Rig` method says that its `View()` changes by exactly that function.
- A raw JSON message is a token sequence in which blanks are tokens and a string remembers its
  spelling, so "the same raw message" means the same bytes. A value is scanned by the grammar of
  RFC 8259, sections 3 to 5. `JsonLayout` writes that grammar and every allowed blank down without
  the scanner and proves that the readers accept exactly it; `FoldReading` carries this to turns,
  contents and bodies.
- A definition that both the code and its specification use is pinned by a lemma that names
  neither: GPU numbers for overlap, characters for folding and trimming, bytes for GGUF numbers,
  events for the hub, integers for the context guess.
- The supervisor, the hub with its nodes, and the gossiping mesh are state machines: one step is
  one critical section, channel operation, request or answer, and what the environment decides
  (a process dies, an answer is lost, a save fails) is part of the step.
- Iterating over a Go map is a nondeterministic choice; a sorted result is proved to depend on
  the map's content only.
- `models.Find`, backend discovery and URL parsing are functions in a `World` parameter; hashes,
  new ids, clock readings and the success of a save are parameters of the operations.

Five places where the code does less than a comment or a reader might expect are kept as they
are, each with the exact condition or a concrete case:

- A launch interrupted by a stop, or timed out, does not kill its process
  (`Supervisor.LaunchRaceLeaks`, `Supervisor.NoLeakIff`).
- `Ensure` is documented to load only "if no healthy slot already serves the model", but asks the
  first matching slot only (`Placement.AlreadyLoadedIff`, `Placement.EnsureOverlooksHealthy`).
- The federation package says peers never poll the aggregated `/v1/models`; `pollPeer` falls back
  to it, and then a model nobody serves can stay routed (`Gossip.KeptAliveIff`; reached from
  start-up in `Gossip.AggregateKeepsAlive`).
- The route table is looked up with the trimmed handle, but the request is forwarded untrimmed
  (`Dispatch.ForwardedServedIff`); two peers can pass such a request back and forth without end
  (`Dispatch.PaddedHandleLoops`).
- A revocation whose save fails is undone by a restart; `Revoke` reports the error
  (`Tokens.UnsavedRevokeReturns`).

## Model

| member | source | states |
|---|---|---|
| JsonTokens.ValueLocal | internal/router/anthropic.go:86-89 | where a raw value ends depends only on its own tokens: it is cut out and pasted anywhere with the same extent |
| JsonTokens.CutIsValue | internal/router/anthropic.go:86-90 | a raw message the decoder hands out is exactly one complete value |
| OrderedObject.ParseOrdered | internal/router/anthropic.go:53-106 | the one-pass parser accepts exactly the texts that are one JSON object, blanks aside, with pairwise distinct keys, and returns its members in order |
| JsonLayout.ParseIff | internal/router/anthropic.go:53-106 | it accepts exactly the texts that lay out one object with distinct keys, in any key spelling and with any blanks, and returns exactly those fields |
| JsonLayout.ReadArrayIff | internal/router/anthropic.go:169-172 | the list reader returns exactly the values of a text that lays out one array, with any blanks, or none for null |
| JsonLayout.ReadArrayRefuses | internal/router/anthropic.go:169-176 | it refuses exactly the texts that are neither |
| JsonLayout.ReadStringIff | internal/router/anthropic.go:153-156 | the string reader returns exactly the string of a text that is one string, in any spelling, or "" for null |
| JsonLayout.ValueIffJson | internal/router/anthropic.go:86-90 | what counts as one raw value is exactly what the grammar generates |
| JsonLayout.PrintedLayouts | internal/router/anthropic.go:128-145 | the printers write the layout without blanks, keys in their canonical spelling |
| OrderedObject.OneReading | internal/router/anthropic.go:74-84 | on every accepted body the first-key lookup and the last-key lookup agree for every key |
| OrderedObject.SetInPlace | internal/router/anthropic.go:118-126 | the loop replaces the value where the key stands, or appends |
| OrderedObject.SetLaws | internal/router/anthropic.go:117-126 | set answers the new value for its key and the old one for every other, keeps order and every other field, and grows only by a new last key |
| OrderedObject.MarshalLoop | internal/router/anthropic.go:128-145 | the printing loop writes braces around the comma-joined members |
| OrderedObject.PackLoop | internal/router/anthropic.go:184-195 | the packing loop writes brackets around the comma-joined blocks |
| OrderedObject.ParseMarshal | internal/router/anthropic.go:53-145 | parsing a printed object gives the object back, for every object with distinct keys |
| OrderedObject.ReprintIsStable | internal/router/anthropic.go:37-45 | re-printing an accepted body loses no key, no order and no raw value |
| OrderedObject.ReadPack | internal/router/anthropic.go:164-195 | reading a packed block list gives exactly the blocks that were packed |
| SystemFold.WithBlocksBlocks | internal/router/anthropic.go:262-266 | a turn whose content was set to packed blocks reads back as those blocks |
| SystemFold.StringContent | internal/router/anthropic.go:173-181 | a bare string content is read as one block, an object that says type "text" and that text |
| SystemFold.NewUserFacts | internal/router/anthropic.go:287-296 | the appended turn is a user turn that reads back as the leftover blocks |
| FoldReading.TurnRoles | internal/router/anthropic.go:148-158 | a turn is a system or a user turn exactly by the string in its first role field |
| FoldReading.BlocksIff | internal/router/anthropic.go:160-182 | a turn's blocks are exactly the values of its content array, none for null or no content, one text block for a string |
| FoldReading.BlocksFail | internal/router/anthropic.go:173-176 | reading them fails exactly on a content that is none of these |
| SystemFold.NearestPrecedingUser | internal/router/anthropic.go:249-256 | the backward search yields the last user turn written so far, or none |
| SystemFold.TargetFound | internal/router/anthropic.go:249-268 | the turn found in the output is the user turn nearest before the system turn in the input, and there is one exactly when the input has one |
| SystemFold.FoldTurns | internal/router/anthropic.go:238-296 | the one pass with `pending` and in-place targets equals the declarative fold (nearest preceding user turn, else the next, else an appended one), fails exactly when a content that must be read cannot be, and counts the system turns |
| FoldLaws.FoldedUserTurn | internal/router/anthropic.go:19-22 | each user turn ends with (if it is the first) all system blocks before it, its own blocks, and the blocks of the system turns up to the next user turn |
| FoldLaws.FoldedWithoutUser | internal/router/anthropic.go:287-296 | with no user turn the other turns stay and one user turn holding all system blocks is appended, if there are any |
| FoldLaws.FoldConserves | internal/router/anthropic.go:17-22 | the blocks of user and system turns, concatenated in order, are the blocks of the resulting user turns, and every other turn is unchanged and in order |
| FoldLaws.FoldRemovesSystem | internal/router/anthropic.go:242-244 | no system turn is left and exactly the system turns are gone |
| FoldLaws.FoldKeepsFields | internal/router/anthropic.go:262-285 | a kept turn keeps every field but content, and a turn that is no user turn is kept whole |
| FoldReading.FoldLeavesOthersAlone | internal/router/anthropic.go:272-285 | a user turn into which no system turn's blocks are put is kept whole, whatever its content |
| FoldReading.FoldFailsIff | internal/router/anthropic.go:243-276 | the fold gives up exactly when a system turn, or a user turn into which blocks are put, has an unreadable content |
| FoldBody.MarshalMessages | internal/router/anthropic.go:298-310 | the output loop writes the array of printed turns |
| FoldBody.FoldSystemTurns | internal/router/anthropic.go:208-317 | on whole bodies: which bodies are rewritten, which pass unchanged, which pass unchanged with an error, and what the rewritten body is |
| FoldReading.MessagesIff | internal/router/anthropic.go:209-233 | the conversation worked on is exactly the list of objects the body's messages lay out |
| FoldReading.OutcomeFails | internal/router/anthropic.go:205-236 | when the call returns an error, by the text of the body |
| FoldBody.RewriteReads | internal/router/anthropic.go:298-316 | the rewritten body parses, and its messages read back as exactly the folded turns |
| FoldBody.RewriteKeepsTheRest | internal/router/anthropic.go:39-45 | top-level key order and every value other than messages are untouched |
| FoldBody.FoldIdempotent | internal/router/anthropic.go:200-236 | folding the forwarded body again returns the same bytes with nothing folded |
| FoldBody.FoldOutcomeMeaning | internal/router/anthropic.go:197-207 | count 0 means the original bytes; a positive count is the number of system turns, none of which is left, with content and order conserved |
| Supervisor.StepInv | internal/rig/rig.go:403-499 | every atomic step of supervisor, stopper, process and Wait goroutine keeps the protocol invariant |
| Supervisor.BlockedMeansDoomed | internal/rig/rig.go:175-181 | a supervisor blocked on the exit channel after a stop waits for a process that is killed or held to be killed, whose result is still to come |
| Supervisor.ExitTakenOnce | internal/rig/rig.go:470-489 | no exit result is taken twice and none is waited for after it was taken |
| Supervisor.AtMostOneLateStart | internal/rig/rig.go:403-410 | at most one process start follows the setting of stopping |
| Supervisor.BackoffAndRestarts | internal/rig/rig.go:403-431 | unstopped, the sleeps since the last clean start are 1, 2, 4, 8, 16, then 32 seconds, and restarts counts exits after healthy, never failed launches |
| Supervisor.StateShown | internal/rig/rig.go:404-436 | unstopped, a slot shows Healthy exactly from its health answer to the exit of its process, else Starting, Crashed or, at first, Stopped; a clean start resets the back-off |
| Supervisor.OnlyAsAnswered | internal/rig/rig.go:435-498 | a launch goes on only with its port free, a process appears only by a successful start, a launch succeeds only by a 200, and it is given up only past its deadline or under a stop |
| Supervisor.HistoryIsReal | internal/rig/rig.go:403-431 | the late starts and healthy exits spoken of are those of the run |
| Supervisor.StopEndsSupervisor | internal/rig/rig.go:402-432 | in every interleaving after a stop the supervisor takes at most seven more steps |
| Supervisor.StopMakesProgress | internal/rig/rig.go:416-426 | after a stop the supervisor can move, or waits for a doomed process whose report can still arrive |
| Supervisor.NoLeakIff | internal/rig/rig.go:175-181 | once supervisor and stoppers are through, a process runs on unkilled exactly when its launch was given up, it has not died, and no stopper had read it as the slot's cmd |
| Supervisor.LaunchRaceLeaks | internal/rig/rig.go:406-484 | a concrete interleaving in which every stopper is through and a started process is left running |
| Ring.Ring.Push | internal/rig/rig.go:581-588 | the buffer always holds exactly the last n lines ever pushed |
| Ring.Ring.Last | internal/rig/rig.go:589-600 | the joined lines are the three most recent of all pushed, within the capacity |
| Placement.AutoPort | internal/rig/rig.go:202-213 | an auto-assigned port is the least unused one at or above the base and at most base plus the number of slots |
| Placement.LoadMeaning | internal/rig/rig.go:119-156 | when Load succeeds and every field of the entry it adds: where no port was given, the least port from the base up that no slot holds |
| Placement.UnloadMeaning | internal/rig/rig.go:159-173 | Unload fails exactly when no slot has the name, and else keeps all others in order |
| Placement.RunsStayDisjoint | internal/rig/rig.go:254-283 | at every point of every serialised run of Ensure, Unload and UnloadAll, loads failing and states changing at will, no GPU number is in two slots if none was at the start |
| Placement.EnsureKeepsInOrder | internal/rig/rig.go:257-283 | corollary of the meaning Registry.Rig.Ensure realises: "loaded" keeps the slots off the wanted GPUs in their order and puts the new one last; a failed load keeps the same slots; "already-loaded" changes nothing |
| Placement.EnsureEvictsExactly | internal/rig/rig.go:261-278 | after a swap, successful or not, exactly the slots that have no GPU number in common with the new one are left, in their order |
| Placement.ResolveIsPreferred | internal/rig/rig.go:377-389 | a handle means the first slot of that name, or, when no slot has it, the first whose model id matches |
| Placement.AlreadyLoadedIff | internal/rig/rig.go:257-260 | Ensure answers "already-loaded" exactly when the one slot the handle means is healthy |
| Placement.EnsureOverlooksHealthy | internal/rig/rig.go:254-260 | a healthy slot serving the model behind a crashed one is not seen, and both are evicted |
| Placement.RunsStayDistinct | internal/rig/rig.go:140-173 | at every point of every run of all operations, and so in every interleaving of the locked sections Load and Unload, the folded slot names are distinct |
| Text.EqualFoldIff | internal/rig/rig.go:384 | strings are equal under folding exactly when they agree up to the case of ASCII letters |
| Text.TrimIs | internal/fed/fed.go:244 | trimming takes off the blanks at both ends, and all of them |
| Text.LessIff | internal/hub/store.go:257 | the sorting order is that of bytes, a proper prefix first |
| Placement.ProfileExact | internal/rig/rig.go:227-252 | applying a profile ends with exactly its loadable slots whose name no earlier loadable one took, in order, defaults filled in |
| Registry.Rig.NextPort | internal/rig/rig.go:203-213 | the probing loop ends at the least free port |
| Registry.Rig.Add | internal/rig/rig.go:140-152 | the registering section refuses a taken name, else appends, and keeps list and table in bijection |
| Registry.Rig.Load | internal/rig/rig.go:119-156 | the registry changes by exactly the loaded entry, or not at all when a check fails or the name is taken |
| Registry.Rig.Remove | internal/rig/rig.go:160-174 | the unregistering section takes exactly the named slot out of list and table, in place, and keeps them in bijection |
| Registry.Rig.Unload | internal/rig/rig.go:159-185 | exactly the named slot leaves the registry and is marked stopping and stopped; no other instance is touched |
| Registry.Rig.UnloadEach | internal/rig/rig.go:196-198 | unloading a list of names one by one removes exactly the slots of those names, and each of them is stopping and stopped |
| Registry.Rig.UnloadAll | internal/rig/rig.go:187-200 | the registry ends empty, every slot that was in it is stopping and stopped, and the names are returned in order |
| Registry.Rig.Resolve | internal/rig/rig.go:377-389 | by folded name first, else the first slot whose model id contains the handle |
| Registry.Rig.Overlapping | internal/rig/rig.go:261-275 | the evicted names pick exactly the slots that share a GPU |
| Registry.Rig.Ensure | internal/rig/rig.go:257-283 | the method realises the placement meaning of Ensure on the registry, and every evicted slot is stopping and stopped |
| Registry.Rig.ApplyProfile | internal/rig/rig.go:227-252 | an unknown profile changes nothing; a known one stops every slot that was loaded and leaves the profile meaning, failures counted |
| Registry.Rig.StopAll | internal/rig/rig.go:363-374 | every registered instance is stopping and stopped |
| Registry.Validate | internal/config/config.go:163-181 | the configuration check passes exactly when every slot is complete and no two share a folded name |
| Registry.New | internal/rig/rig.go:286-319 | succeeds exactly when every configured slot gets through, registers them in order as configured, and is then consistent exactly when no two share a folded name |
| Registry.AcceptedIff | internal/rig/rig.go:296-310 | a configured slot gets through exactly when its model and backend resolve, or, for an external one, it has an alias no earlier slot is called by and a URL |
| Gguf.RoundTrip | internal/gguf/gguf.go:82-173 | reading any encoded value, arrays nested at will, gives the value (arrays projected to their first element) and stops exactly behind it |
| Gguf.ElementsRoundTrip | internal/gguf/gguf.go:138-155 | the array loop reads encoded elements exactly and keeps the first |
| Gguf.StringRead | internal/gguf/gguf.go:160-173 | encoded strings up to 2^20 bytes are read back exactly |
| Gguf.ScalarCodes | internal/gguf/gguf.go:91-137 | every scalar type code, from the bytes it is read from |
| Gguf.CompoundCodes | internal/gguf/gguf.go:138-173 | strings, arrays and tagged values, from their bytes, with the cap and the short reads |
| Gguf.DepthBounded | internal/gguf/gguf.go:138-155 | every open array loop has consumed twelve bytes, so nesting is bounded by the input, whatever counts it claims |
| GgufReader.Reader.TypedValue | internal/gguf/gguf.go:90-158 | the recursive reader moves its cursor and returns as the format function says, and terminates on every input |
| GgufReader.Reader.String | internal/gguf/gguf.go:160-173 | the string reader, its cap and its short reads |
| GgufReader.ReadPairs | internal/gguf/gguf.go:53-64 | the key/value loop builds the table up to the first unreadable pair |
| GgufReader.Read | internal/gguf/gguf.go:35-80 | the header reader on the first eight megabytes of any file |
| GgufReader.HeaderRoundTrip | internal/gguf/gguf.go:41-80 | an encoded header within the limit, whatever follows it, yields the parameters of its entry table |
| GgufReader.LastEntryWins | internal/gguf/gguf.go:53-64 | in that table the last entry of a key decides |
| GgufReader.HeaderFields | internal/gguf/gguf.go:41-80 | all five parameters of an encoded header from the last entry of each key: kv-heads fall back to the attention heads, the head dimension to the integer quotient of embedding length and heads, or 0 without heads |
| GgufReader.NumbersKept | internal/gguf/gguf.go:175-185 | 8-, 16- and 32-bit numbers are kept whole, wider and negative ones modulo 2^32, other scalars are 0 |
| GgufReader.TrainedContext | internal/gguf/gguf.go:70 | a context length written as a 32-bit number is the trained context |
| GgufReader.HeaderBytes | internal/gguf/gguf.go:41-64 | a file is read exactly when its first eight megabytes hold 24 bytes that start with "GGUF"; the count stands at byte 16 |
| Routes.Federation.AddOffer | internal/fed/fed.go:243-252 | one more peer's models join the table without displacing a route |
| Routes.Federation.ApplyRoster | internal/fed/fed.go:228-260 | the table routes a key exactly when a usable roster entry other than this node serves it, and to the first such entry; health and roster are replaced |
| Routes.Federation.ApplyPoll | internal/fed/fed.go:332-354 | the same for a finished round of polls, first online peer in configuration order, last answer per URL in health |
| Routes.PollTable | internal/fed/fed.go:332-348 | a round of polls routes a key exactly when an online peer lists it, to the first such peer in configuration order, under the first spelling listed |
| Routes.RouteKeyIs | internal/fed/fed.go:244 | a route key is the name without the blanks around it, in lower case |
| Routes.RosterAsPoll | internal/fed/fed.go:225-260 | a roster is routed like a round of polls in which every usable node answered |
| Routes.Federation.Resolve | internal/fed/fed.go:428-444 | a disabled federation and an unmatched handle give nothing; else the exact key, else some key that contains it |
| Routes.Federation.NodeAddr | internal/fed/fed.go:280-300 | the first roster entry of the name decides, address or not; else a polled peer of that name |
| Routes.NoRouteToSelf | internal/fed/fed.go:234-237 | a table built from a roster never routes to this node; a route leads to a name that IsSelf (305-316) answers for only if that name was registered with whitespace around it |
| Hub.ListingUnique | internal/hub/store.go:252-258 | sorting leaves nothing of the map's iteration order |
| Hub.FaithfulPrune | internal/hub/store.go:244-251 | pruning, whatever was pruned before, leaves exactly the last heartbeats not older than the cutoff |
| Hub.Roster.Register | internal/hub/store.go:231-241 | a heartbeat replaces the node's entry and is stamped |
| Hub.Roster.Listing | internal/hub/store.go:244-259 | the answer is the last heartbeat of every name within the TTL, strictly sorted by name, however often the roster was pruned |
| Hub.ListingHas | internal/hub/store.go:244-258 | a node is listed exactly with its last heartbeat, and only if that is not older than the cutoff |
| HubSystem.AnswerRealised | internal/fed/fed.go:228-260 | the roster the hub returns, applied by a node, gives the table the end-to-end results speak of, whatever order either map was iterated in |
| HubSystem.HubEndToEnd | internal/hubclient/hubclient.go:112-122 | after any run a node routes a key exactly when, at its last successful poll, another node with a usable address served it and had been heard from within the TTL, and then to the least-named such node |
| HubSystem.HubFromEvents | internal/hubclient/hubclient.go:112-122 | the same over the events alone: the last answer a node got, and the heartbeats that had reached the hub by then |
| HubSystem.NeverAnswered | internal/hubclient/hubclient.go:112-119 | a node that never got an answer routes nothing |
| HubSystem.RouteIsLeastCandidate | internal/fed/fed.go:225-253 | first-wins over the sorted roster means the least-named candidate |
| HubSystem.FailedPollKeepsRoutes | internal/hubclient/hubclient.go:68-69 | corollary of the step rules: a poll that does not come back leaves the node's routes as they were, and no poll touches another node |
| Gossip.GossipForgets | internal/fed/fed.go:318-354 | once nobody serves a key, a node that has begun and finished a round without the fallback holds no route for it ever after, under any peering graph and interleaving |
| Gossip.KeptAliveIff | internal/fed/fed.go:318-379 | a round begun while nobody serves a key leaves a route for it exactly when the last answer of some peer came from /v1/models while that peer still routed the key |
| Gossip.EndRoutesIff | internal/fed/fed.go:332-354 | after a round a key is routed exactly when some online answer mentions it |
| Gossip.AggregateMentionsIff | internal/router/router.go:587-612 | the aggregated list of a peer without a slot for a key mentions it exactly when that peer routes it |
| Gossip.ListIsAggregate | internal/router/router.go:591-612 | the list the router hands out is the aggregated answer of the mesh |
| Gossip.AggregateKeepsAlive | internal/fed/fed.go:356-379 | a run from two freshly peered nodes, by way of the fallback, after which nobody serves the model and each routes it to the other |
| Gossip.EchoStays | internal/fed/fed.go:356-379 | in that state one more round over the fallback changes nothing |
| Tokens.LoadSave | internal/hub/store.go:101-138 | loading what a save wrote gives the table back |
| Tokens.FileIsLastSave | internal/hub/store.go:119-138 | after any run the file holds memory as it was at the last successful save, whatever failed or crashed since |
| Tokens.Store.SaveLocked | internal/hub/store.go:120-138 | a save makes the file an image of the table, oldest first, or leaves it as it was |
| Tokens.Store.EnsureAdmin | internal/hub/store.go:148-165 | creates a token exactly when the key is not blank and no active admin token has its hash |
| Tokens.Store.Mint | internal/hub/store.go:169-185 | an unknown kind changes nothing; else the new token is active in memory and saved |
| Tokens.Store.Verify | internal/hub/store.go:188-201 | succeeds exactly when some active token has the hash |
| Tokens.Store.Revoke | internal/hub/store.go:204-214 | marks the token in memory and saves; an unknown id is an error without effect |
| Tokens.Store.Restart | internal/hub/store.go:82-116 | memory becomes the file's content |
| Tokens.RevokedForever | internal/hub/store.go:203-214 | a token whose Revoke returned nil never verifies again, across any calls, failing saves, crashes and reloads |
| Tokens.RefusedUntilIssued | internal/hub/store.go:188-201 | a secret neither memory nor file accepts stays refused until a call issues it |
| Tokens.UnsavedRevokeReturns | internal/hub/store.go:203-214 | a Revoke that could not save returns an error, and after a restart the token is active exactly when the file says so |
| Tokens.EnsureAdminOnce | internal/hub/store.go:145-159 | a second call with the same key changes nothing |
| Dispatch.Choose | internal/router/router.go:520-557 | pinned node, else local slot, else peer, else nothing; the choice agrees with the registry and the route table |
| Dispatch.DispatchedIff | internal/router/router.go:541-557 | unpinned, literally: the slot the handle means by its port or name; else the route of the key; else some route whose key contains it; else nothing |
| Dispatch.ListModels | internal/router/router.go:591-612 | local slots in order, then routed models sorted; every slot and every routed model is named, and no two ids fold together |
| Dispatch.RemoteModels | internal/fed/fed.go:447-459 | every route once, strictly sorted by model |
| Dispatch.ListedIdHasTarget | internal/router/router.go:541-557 | a request for any listed id gets a target |
| Dispatch.OneHopIff | internal/router/router.go:541-557 | with fresh tables, an unpadded handle that folds to a loaded slot's name always gets a target, and a peer it goes to serves it exactly when it has such a slot with an unpadded name, or a matching model id |
| Dispatch.OneHop | internal/router/router.go:541-557 | so one hop suffices where the slots meant have unpadded names: served here, or by name at the very peer it is forwarded to |
| Dispatch.ForwardedServedIff | internal/router/router.go:541-553 | with fresh tables, a handle not served here whose key is routed is served by the peer it goes to exactly when it has no surrounding whitespace or matches one of that peer's model ids |
| Dispatch.PaddedHandleLoops | internal/fed/fed.go:432-437 | two peered nodes, each with a slot "m" and a fresh table, forward the handle " m" to each other and to nothing else |
| Proxy.ProxyByModel | internal/router/router.go:490-584 | bodies without one reading or without a model are refused; the target is chosen by that reading and the forwarded body still has it |
| Proxy.RequestedModelIff | internal/router/router.go:509-523 | a request asks for a model exactly when its body lays out one object with distinct keys whose model is that string |
| Proxy.ModelSurvivesFold | internal/router/router.go:564-571 | folding never changes which model a body asks for |
| ContextGuess.SumFree | internal/router/router.go:652-663 | free memory summed over the wanted GPU indices, the last report of an index counting |
| ContextGuess.FreeOfIs | internal/router/router.go:652-663 | the last report of an index counts, an index without one has nothing free |
| ContextGuess.FreeAdds | internal/router/router.go:656-663 | every wanted index counts, as often as it is named |
| ContextGuess.FitsIffCacheFits | internal/router/router.go:664-694 | fitting in MiB and fractions is fitting in whole bytes: sixteenths per element, nine tenths of what is left |
| ContextGuess.PerTokenPositive | internal/router/router.go:674-691 | the cache cost per token is unknown only for an empty file without dimensions, so every other model gets a guess |
| ContextGuess.GuessContext | internal/router/router.go:664-699 | uncapped, the largest multiple of 4096 whose cache fits 0.9 of the available bytes; the answer fits too and is the trained context when that is known and smaller |

## Left out

- SystemFold.FoldTurns: messages are values, so the sharing of field slices between input and output turns is not modelled; the source copies before it mutates.
- FoldLaws.FoldConserves: a user turn that is never touched and whose content cannot be read counts as having no blocks, before and after.
- Dispatch.OneHop: holds for slot names without surrounding whitespace among those the handle means; `OneHopIff` has the condition for all names.
- Tokens.Store.Mint: the caller's reference into the table is a value here.
- Supervisor.StepInv: the port probe and the writes of the state field are part of the step they belong to; log lines and the error text of a slot are not modelled.
- Registry.New: the rig-wide backend is taken to resolve; only the per-slot overrides can fail.
- GgufReader.HeaderRoundTrip: a header longer than eight megabytes is only covered by `GgufReader.Read`.
- ContextGuess.GuessContext: exact reals stand for 64-bit floats, and a result beyond the machine integer is not modelled.
- Bytes below JSON tokens: lexing, escapes, invalid UTF-8 repair and the decoder's nesting limit.
- Case folding outside ASCII; whitespace is that of Latin-1.
- Error texts and status codes; only whether a call fails is kept.
- Process spawning, environment, sockets, HTTP, streaming and timers, except as steps the environment decides.
- The health poller of external slots, which only mirrors a status into a slot state.
- Concurrent calls of Ensure and ApplyProfile: their run-level results are for serialised calls; each critical section alone keeps the registry consistent.
- Ports given explicitly are not checked for clashes by the source, so only auto-assigned ones carry a guarantee; the numbering of configured slots without a port is not modelled.
- Bearer tokens between peers, loopback checks, request gating.
- The JSON of the token file, SHA-256 and id generation: the file is a list of records, hashes and new ids are parameters.
- Command-line assembly, status, pool and live views, release downloads, directory scanning, GPU queries, command-line programs, web pages, experiments.
