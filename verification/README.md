# Proofs about wepoll, json-c, the Internet checksum and the reactor's poll array

This Dafny project models four components of the DAP SDK and proves what they promise. Code that
changes things in place is modelled by classes and methods on fields and arrays; each method is proved
against a function or an invariant, and the promises are lemmas about those. `dafny verify dfyconfig.toml`
checks all of it.

**wepoll** (`RbShape`, `TreeCells`, `RbTree`, `Reflock`, `Queue`, `EventMasks`, `PollGroups`, `PortModel`,
`PortInv`, `PortSteps`, `PortRuns`, `PortEffects`, `PortState`). The red-black tree has nodes with parent
pointers that are rotated and relinked in place; its invariant ties them to a tree shape by a path and a subtree.
The reference and destroy protocol of a handle is a state machine in which any number of threads take one atomic
action at a time. A port is a state machine of its locked operations, interleaved with a kernel that completes,
cancels or refuses poll requests as it likes; `PortEffects` says what its calls do for the caller, and `PortState`
has the same operations as methods that rewrite fields.

**json-c** (`LinkHash`, `HashLittle`, `HashKnown`, `Json`, `JsonEqual`, `Printbuf`, `JsonPrinter`, `JsonLayout`,
`JsonMachine`, `JsonFeed`, `JsonMemory`, `JsonTokener`, `JsonChunks`, `JsonPieces`, `JsonLeft`, `JsonStrings`,
`JsonSurrogate`, `JsonRoundTrip`, `JsonGrammar`, `JsonStrict`, `JsonWords`). The hash table probes an array of
slots whose links are indices. The printers append to a buffer that is reallocated. The tokener is a class with an
explicit stack, shared registers and tight loops, proved equal to a machine that takes one byte at a time; what the
texts of the grammar, calls on pieces of a text, escapes, comments and the printed form of a value lead to is proved
about that machine. Every node that the tokener builds has an identity and a reference count.

**The Internet checksum** (`Checksum`, sections 1 and 2 of RFC 1071) in its two implementations, with the
two-step computation of ping.

**The poll array of the reactor** (`PollArray`): append, lazy removal, compaction in place.

Paths below are relative to the root of the repository.

## Model

| member | source | states |
|---|---|---|
| RbTree.Tree.constructor | sources/dap-sdk/3rdparty/wepoll/wepoll.c:1972-1974 | an empty tree is valid |
| RbTree.Tree.Add | sources/dap-sdk/3rdparty/wepoll/wepoll.c:2036-2069 | a fresh key is inserted at one place of the key order and the tree stays red-black with consistent parent links; a present key gives -1 and changes nothing |
| RbTree.Tree.Find | sources/dap-sdk/3rdparty/wepoll/wepoll.c:2169-2180 | finds a node with the key exactly if there is one |
| RbTree.Tree.Del | sources/dap-sdk/3rdparty/wepoll/wepoll.c:2071-2167 | for any node of any valid tree: the tree stays red-black with consistent links, and its contents are the old ones without that node; the fix-up terminates |
| RbShape.HeightLogarithmic | sources/dap-sdk/3rdparty/wepoll/wepoll.c:2003-2167 | a red-black tree of n nodes is at most 2*log2(n+1) high |
| Reflock.Safety | sources/dap-sdk/3rdparty/wepoll/wepoll.c:1554-1585 | in every interleaving with fewer than 2^28 references: every assertion holds, freed memory is not touched, at most one close succeeds, a thread decides to signal at most once and only after the closer has decided to wait, and signals and waits are equal once nobody waits |
| Reflock.DestroyIsExclusive | sources/dap-sdk/3rdparty/wepoll/wepoll.c:1572-1585 | when the destroyer is past its wait, no thread holds a reference, is about to take one or still has to signal, and so ever after |
| Reflock.NoLostWakeup | sources/dap-sdk/3rdparty/wepoll/wepoll.c:1562-1585 | a waiting closer always has a thread that will wake it, and a signalling thread always has the closer to meet |
| Reflock.Progress | sources/dap-sdk/3rdparty/wepoll/wepoll.c:591-681 | while a call is in progress, some thread inside a call can take a step: no deadlock |
| Reflock.StepsRunOut | sources/dap-sdk/3rdparty/wepoll/wepoll.c:1934-1970 | every step inside a call lowers a total rank, so that the calls return once no new one starts |
| Reflock.RefBoundExact | sources/dap-sdk/3rdparty/wepoll/wepoll.c:1554-1560 | the assertion in reflock_ref holds exactly while the new reference keeps below 2^28 |
| Reflock.CallReturned | sources/dap-sdk/3rdparty/wepoll/wepoll.c:591-681 | every call that has returned looked the handle up; if it found the port, it held a reference, and if it was epoll_close, it has deleted the port; if not, it held none, and the port has left the tree |
| Reflock.CallsDoTheirWork | sources/dap-sdk/3rdparty/wepoll/wepoll.c:591-681 | at every moment every thread stands where the history of its call says |
| Reflock.ClosedInTheEnd | sources/dap-sdk/3rdparty/wepoll/wepoll.c:591-612 | once an epoll_close has begun and all calls have returned, exactly one has deleted the port |
| Reflock.OnlyCloseCloses | sources/dap-sdk/3rdparty/wepoll/wepoll.c:591-612 | nothing but epoll_close takes the port out of the tree or deletes it |
| Queue.SockQueues.Cancel | sources/dap-sdk/3rdparty/wepoll/wepoll.c:1422-1442 | removing a node without naming its queue takes it out of whichever of the two circular lists it is in, and leaves the other one and every free node alone |
| Queue.SockQueues.RequestUpdate | sources/dap-sdk/3rdparty/wepoll/wepoll.c:1412-1418 | appends to the update queue unless the node is in either queue |
| Queue.MoveToEnd | sources/dap-sdk/3rdparty/wepoll/wepoll.c:1502-1505 | the ring with the node at its end, the others in order |
| EventMasks.AskedComesBack | sources/dap-sdk/3rdparty/wepoll/wepoll.c:1730-1770 | every known event that is asked for is reported when the driver reports all that it was asked for, EPOLLMSG apart |
| EventMasks.Reported | sources/dap-sdk/3rdparty/wepoll/wepoll.c:1750-1770 | for each flag of epoll, exactly which events of the driver report it |
| EventMasks.Asked | sources/dap-sdk/3rdparty/wepoll/wepoll.c:1730-1748 | for each event of the driver, exactly which flags of epoll ask for it |
| PollGroups.AcquireInv | sources/dap-sdk/3rdparty/wepoll/wepoll.c:994-1012 | acquiring keeps full groups first, sizes at most 32, and counts one slot more |
| PollGroups.ReleaseInv | sources/dap-sdk/3rdparty/wepoll/wepoll.c:1014-1024 | releasing keeps the same and counts one slot less; its assertion holds |
| PollGroups.MadeOnlyWhenFull | sources/dap-sdk/3rdparty/wepoll/wepoll.c:994-1012 | a new group is made only when all groups are full |
| PollGroups.AcquireExact | sources/dap-sdk/3rdparty/wepoll/wepoll.c:994-1012 | a slot is found exactly if a group has one free or one more group can be made |
| PortRuns.StepInv | sources/dap-sdk/3rdparty/wepoll/wepoll.c:1168-1398 | every operation and every act of the kernel keeps the invariant of the port |
| PortRuns.RunInv | sources/dap-sdk/3rdparty/wepoll/wepoll.c:1127-1398 | it holds in every state of every run |
| PortRuns.RecordsInPlace | sources/dap-sdk/3rdparty/wepoll/wepoll.c:1676-1711 | in every reachable state a live record is in exactly one of the socket tree and the deleted queue, a request is outstanding for it exactly if it is not idle, and no freed record is used |
| PortRuns.NoInterestLost | sources/dap-sdk/3rdparty/wepoll/wepoll.c:1772-1887 | a registered socket is queued for update, or the request that the kernel holds watches for all that was last asked for, or a cancelled request will bring it back |
| PortRuns.GroupBounds | sources/dap-sdk/3rdparty/wepoll/wepoll.c:955-1024 | each group size is the number of records that hold the group, at most 32, and there are at most ceil(peak/32) groups |
| PortRuns.UpdatesFinish | sources/dap-sdk/3rdparty/wepoll/wepoll.c:1168-1184 | port__update_events ends with an empty queue exactly if it reports success |
| PortRuns.DeliveredAsAsked | sources/dap-sdk/3rdparty/wepoll/wepoll.c:1834-1887 | every delivered event is a non-empty part of what was last asked for plus ERR and HUP, with the data last set |
| PortRuns.OneShotOnce | sources/dap-sdk/3rdparty/wepoll/wepoll.c:1876-1884 | a one-shot socket delivers once between two calls that set it |
| PortRuns.NothingAfterRemoved | sources/dap-sdk/3rdparty/wepoll/wepoll.c:1834-1850 | nothing is delivered for a deleted socket |
| PortRuns.FreedOnce | sources/dap-sdk/3rdparty/wepoll/wepoll.c:1676-1703 | no record is freed twice without being registered anew |
| PortRuns.PollLeaveInv | sources/dap-sdk/3rdparty/wepoll/wepoll.c:1191-1239 | one poll delivers at most maxevents events, exactly those that are logged |
| PortRuns.StepLate | sources/dap-sdk/3rdparty/wepoll/wepoll.c:1444-1447 | exactly when the assertion in port_get_iocp_handle fails |
| PortRuns.LateRun | sources/dap-sdk/3rdparty/wepoll/wepoll.c:955-974 | a run in which it does |
| PortEffects.FeedGives | sources/dap-sdk/3rdparty/wepoll/wepoll.c:1834-1887 | the completion of a request gives exactly the event expected of it: all flags that were asked for and have happened, with the user's data; what then becomes of the record |
| PortEffects.WaitGives | sources/dap-sdk/3rdparty/wepoll/wepoll.c:1209-1239 | a wait returns the events expected of the packets it has dequeued, all of them, in order, and no others |
| PortEffects.StepGives | sources/dap-sdk/3rdparty/wepoll/wepoll.c:1191-1239 | in every step of every run these events are delivered and no others |
| PortEffects.AnswerComesBack | sources/dap-sdk/3rdparty/wepoll/wepoll.c:1191-1239 | whatever happens between the kernel's answer and the wait that takes it in, that wait returns the event expected of the answer and of what is asked for by then |
| PortEffects.AddDoes | sources/dap-sdk/3rdparty/wepoll/wepoll.c:1314-1330 | exactly when adding a socket succeeds; then its record watches for what was asked plus ERR and HUP, with the data, and other records are as before; a failure leaves all records as they were |
| PortEffects.ModDoes | sources/dap-sdk/3rdparty/wepoll/wepoll.c:1332-1346 | changing succeeds exactly for a socket in the set, and sets what its record watches for |
| PortEffects.DelDoes | sources/dap-sdk/3rdparty/wepoll/wepoll.c:1348-1357 | deleting succeeds exactly for a socket in the set; the socket leaves it, the record is freed or marked as deleted, its request is cancelled, and nothing else changes |
| PortEffects.EnterDoes | sources/dap-sdk/3rdparty/wepoll/wepoll.c:1209-1239 | unless the kernel refuses something, a wait begins to poll, with no update left to do |
| PortEffects.StepUpToDate | sources/dap-sdk/3rdparty/wepoll/wepoll.c:1186-1189 | while a thread polls, no record waits for an update, unless the kernel refuses something |
| PortState.PortState.UpdateEvents | sources/dap-sdk/3rdparty/wepoll/wepoll.c:1168-1184 | the loop over the update queue does what the model's operation does, and terminates |
| PortState.PortState.SockFeedEvent | sources/dap-sdk/3rdparty/wepoll/wepoll.c:1834-1887 | the completion of a request, with all its branches, as in the model |
| PortState.PortState.FeedEvents | sources/dap-sdk/3rdparty/wepoll/wepoll.c:1191-1207 | the batch is fed in order and the events fill the front of the caller's array |
| PortState.PortState.Delete | sources/dap-sdk/3rdparty/wepoll/wepoll.c:1137-1166 | from every reachable closed state: each record is freed exactly once, and the assertions hold (group sizes zero, update queue empty) |
| LinkHash.Table.LookupEntry | sources/dap-sdk/3rdparty/json-c/linkhash.c:626-643 | finds the slot of a key exactly if the table has it, past tombstones and round the end |
| LinkHash.Table.Insert | sources/dap-sdk/3rdparty/json-c/linkhash.c:578-619 | appends one binding to the insertion order; the probe always finds a slot; on failure the table is unchanged |
| LinkHash.Table.Resize | sources/dap-sdk/3rdparty/json-c/linkhash.c:535-564 | keeps all bindings in order, leaves no tombstone, succeeds exactly if there is memory for the requested size and for each size that filling it needs, and gives a valid table exactly if the entries fit the requested size |
| LinkHash.RoomIfMemory | sources/dap-sdk/3rdparty/json-c/linkhash.c:578-592 | filling never fails for want of room alone |
| LinkHash.Table.DeleteEntry | sources/dap-sdk/3rdparty/json-c/linkhash.c:664-703 | removes one binding from the order, or fails for a slot that is not live |
| LinkHash.Table.ObjectAdd | sources/dap-sdk/3rdparty/json-c/json_object.c:583-618 | replaces the value of a present key in its place and appends any other; exactly when it fails |
| LinkHash.ShrunkTooFar | sources/dap-sdk/3rdparty/json-c/linkhash.c:535-564 | any three entries can be resized to two slots if there is memory for two and four slots; then the size that is stored is not the length of the table |
| HashLittle.HashAligned4 | sources/dap-sdk/3rdparty/json-c/linkhash.c:266-342 | the word-wise path computes the hash of the key, whatever bytes its masked last read finds behind the key |
| HashLittle.HashAligned2 | sources/dap-sdk/3rdparty/json-c/linkhash.c:343-391 | so does the half-word path |
| HashLittle.HashBytes | sources/dap-sdk/3rdparty/json-c/linkhash.c:392-435 | and the byte-wise path |
| HashLittle.Hashlittle | sources/dap-sdk/3rdparty/json-c/linkhash.c:253-439 | the hash depends on the bytes, length and seed only, not on the alignment |
| HashLittle.MixReversible | sources/dap-sdk/3rdparty/json-c/linkhash.c:176-184 | mix loses no information |
| HashKnown.KnownHash | sources/dap-sdk/3rdparty/json-c/linkhash.c:176-220 | the hash of the 30 bytes "Four score and seven years ago" with seed 0 is 0x17770551, as published with the function |
| Printbuf.Printbuf.Extend | sources/dap-sdk/3rdparty/json-c/printbuf.c:62-89 | exactly when it fails; otherwise the room asked for and, if possible, twice the old room |
| Printbuf.Printbuf.Memappend | sources/dap-sdk/3rdparty/json-c/printbuf.c:91-105 | all of the text or nothing is appended, exactly when, and a NUL follows |
| Printbuf.Printbuf.Memset | sources/dap-sdk/3rdparty/json-c/printbuf.c:107-128 | which bytes are set and which stay, and exactly when it fails |
| JsonPrinter.EscapeStr | sources/dap-sdk/3rdparty/json-c/json_object.c:215-279 | bulk appends of plain runs give the same as escaping byte by byte |
| JsonPrinter.ToJsonString | sources/dap-sdk/3rdparty/json-c/json_object.c:444-541 | the buffer holds the printed form of any value, for all flags, ended by a NUL |
| JsonLayout.ElementLine | sources/dap-sdk/3rdparty/json-c/json_object.c:444-541 | where every element begins: the mark before it, the line, and two spaces or one tab for each level |
| JsonLayout.ClosingLine | sources/dap-sdk/3rdparty/json-c/json_object.c:444-541 | the closing bracket on a line of its own, as deep as its container |
| JsonLayout.SlashesEscaped | sources/dap-sdk/3rdparty/json-c/json_object.c:215-279 | every slash has a backslash before it, unless the flag is set |
| JsonLayout.SlashesCost | sources/dap-sdk/3rdparty/json-c/json_object.c:215-279 | the flag saves one byte for each slash and changes no other length |
| JsonTokener.Tokener.ParseEx | sources/dap-sdk/3rdparty/json-c/json_tokener.c:266-1228 | one call does what the byte machine does from the state the last call left: same value, error and position; it terminates; every node is owned once; the caller gets one reference to each node of the value; nothing is leaked unless levels were left behind |
| JsonTokener.Tokener.CaseFinish | sources/dap-sdk/3rdparty/json-c/json_tokener.c:412-418 | a node is leaked exactly if a value other than null is finished above a level that a success has reset |
| JsonTokener.Tokener.ResetLevels | sources/dap-sdk/3rdparty/json-c/json_tokener.c:1214-1223 | the value keeps exactly the caller's references, all other nodes on the stack are freed, and the depth stays |
| JsonTokener.Tokener.Reset | sources/dap-sdk/3rdparty/json-c/json_tokener.c:172-182 | frees every node that no caller was given, and forgets all but a waiting high surrogate |
| JsonTokener.Tokener.PushLevel | sources/dap-sdk/3rdparty/json-c/json_tokener.c:1030-1040 | a new level exactly if the depth stays below max_depth |
| JsonMemory.PutFrees | sources/dap-sdk/3rdparty/json-c/json_object.c:300-333 | json_object_put of a tree that nobody else holds frees all its nodes and no others |
| JsonMemory.AttachedOwned | sources/dap-sdk/3rdparty/json-c/json_tokener.c:1044-1161 | putting a value into its container keeps every node owned once; a replaced value is freed |
| JsonMemory.ReturnedOwned | sources/dap-sdk/3rdparty/json-c/json_tokener.c:1214-1223 | after a success every node is owned once, those of the value by the caller |
| JsonLeft.LeavesLevels | sources/dap-sdk/3rdparty/json-c/json_tokener.c:1199-1223 | a call leaves levels behind exactly if it stops at a NUL inside a comment after a value that is not the outermost one; it then returns that value |
| JsonLeft.NothingLeft | sources/dap-sdk/3rdparty/json-c/json_tokener.c:1199-1223 | never in strict mode, and never for a text without NUL |
| JsonLeft.OpenComment | sources/dap-sdk/3rdparty/json-c/json_tokener.c:1199-1223 | both kinds of comment do it after any value in an array |
| JsonLeft.NextValueDropped | sources/dap-sdk/3rdparty/json-c/json_tokener.c:412-418 | any value that is then completed on the level that was reset is dropped, and what follows it is read as if it had not been there |
| JsonLeft.PrintedValueDropped | sources/dap-sdk/3rdparty/json-c/json_tokener.c:412-418 | so after any printed value a closing bracket is an error |
| JsonChunks.CutExact | sources/dap-sdk/3rdparty/json-c/json_tokener.c:851-943 | what is kept between two calls leads to the same result exactly if no number is cut where the new scan goes on differently |
| JsonChunks.OneCut | sources/dap-sdk/3rdparty/json-c/json_tokener.c:246-262 | two calls on the parts of a text give what one call gives exactly under that condition |
| JsonPieces.PiecesAreWhole | sources/dap-sdk/3rdparty/json-c/json_tokener.c:316-341 | so do any number of calls: exactly if no number is cut where it matters, and no piece ends the text before its end or inside a character that goes on |
| JsonPieces.NeverUndone | sources/dap-sdk/3rdparty/json-c/json_tokener.c:851-943 | what one cut of a number changes no later cut makes good |
| JsonChunks.CutBeforeSign | sources/dap-sdk/3rdparty/json-c/json_tokener.c:856-881 | "[1" and "-2]" are accepted one after the other, "[1-2]" is not |
| JsonStrings.ValidationExact | sources/dap-sdk/3rdparty/json-c/json_tokener.c:1230-1254 | validation lets through all of UTF-8 (section 4 of RFC 3629) and, besides, exactly the texts with an overlong form, a surrogate or a value above U+10FFFF |
| JsonStrings.StringParsed | sources/dap-sdk/3rdparty/json-c/json_tokener.c:578-806 | every literal decodes to a string that is well-formed UTF-8 if the literal is, and that is what its escapes mean exactly if no pair denotes a character whose low 16 bits look like a surrogate |
| JsonStrings.DecodedAsMeant | sources/dap-sdk/3rdparty/json-c/json_tokener.c:681-766 | the same for the escapes alone (section 7 of RFC 8259); unpaired surrogates become U+FFFD |
| JsonStrings.HexPlaces | sources/dap-sdk/3rdparty/json-c/json_tokener.c:47-47 | a digit of an escape counts for its place in the table of digits, in lower or upper case, and there are no other digits |
| JsonStrings.CodeMeans | sources/dap-sdk/3rdparty/json-c/json_tokener.c:655-666 | four digits are read in base 16 |
| JsonStrings.ShortMeans | sources/dap-sdk/3rdparty/json-c/json_tokener.c:612-646 | the escapes of two characters, by the table in section 7 of RFC 8259 |
| JsonStrings.EncodeMeans | sources/dap-sdk/3rdparty/json-c/json_tokener.c:703-766 | the bits of a character are spread over its bytes as in section 3 of RFC 3629 |
| JsonStrings.OutWellFormed | sources/dap-sdk/3rdparty/json-c/json_tokener.c:703-806 | decoding keeps UTF-8 well-formed (section 4 of RFC 3629), whatever escapes come |
| JsonStrings.SurrogateLeft | sources/dap-sdk/3rdparty/json-c/json_tokener.c:162-182 | a text that ends after a high surrogate leaves it waiting across a reset |
| JsonStrings.LeftSurrogateMatters | sources/dap-sdk/3rdparty/json-c/json_tokener.c:684-701 | for every next literal, exactly when that changes its value |
| JsonSurrogate.AnyNextText | sources/dap-sdk/3rdparty/json-c/json_tokener.c:162-182 | for every next text: the same result and the surrogate still waiting if no escape of four digits ends, the same result if the first one does not notice it, and a string that is read otherwise in all other cases |
| JsonSurrogate.AnyString | sources/dap-sdk/3rdparty/json-c/json_tokener.c:684-701 | the first string value with such an escape, however nested, is read otherwise exactly if the surrogate makes a difference to its parts |
| JsonStrings.MistakenRead | sources/dap-sdk/3rdparty/json-c/json_tokener.c:118-119 | the escapes of U+1D800 are read as U+FFFD |
| JsonRoundTrip.DepthIsExact | sources/dap-sdk/3rdparty/json-c/json_tokener.c:1030-1040 | parsing the printed form, validated or not, gives an equal value for all flags exactly if the nesting is below max_depth, and the error "too deep" otherwise |
| JsonRoundTrip.PrintPasses | sources/dap-sdk/3rdparty/json-c/json_object.c:215-279 | the printed form passes validation if all strings and keys in the value do |
| JsonRoundTrip.RoundTrip | sources/dap-sdk/3rdparty/json-c/json_object.c:482-541 | the value read back is the printed one, unsigned numbers that fit being signed |
| JsonRoundTrip.EqualNorm | sources/dap-sdk/3rdparty/json-c/json_object.c:1513-1622 | and json_object_equal says that it is equal |
| JsonEqual.EqualIsSame | sources/dap-sdk/3rdparty/json-c/json_object.c:1513-1622 | json_object_equal says yes exactly if both values stand for the same, objects being maps and both kinds of integer numbers, and no NaN is in them |
| JsonGrammar.GrammarParsed | sources/dap-sdk/3rdparty/json-c/json_tokener.c:316-1228 | every text of the grammar of RFC 8259, with any white space, escapes, names and numbers, is parsed as the value it stands for, in every mode, if it is not nested too deeply |
| JsonStrict.TrailingComma | sources/dap-sdk/3rdparty/json-c/json_tokener.c:1014-1030 | a comma before a closing bracket is an error in strict mode, and makes no difference otherwise |
| JsonStrict.CommentBefore | sources/dap-sdk/3rdparty/json-c/json_tokener.c:325-341 | a comment before a document is an error in strict mode, and makes no difference otherwise |
| JsonStrict.SingleQuotes | sources/dap-sdk/3rdparty/json-c/json_tokener.c:342-411 | a string in single quotes is an error in strict mode, and a string otherwise |
| JsonStrict.LeadingZero | sources/dap-sdk/3rdparty/json-c/json_tokener.c:944-1013 | a zero before the digits of a positive integer is an error in strict mode, and makes no difference otherwise |
| JsonStrict.SpaceIs | sources/dap-sdk/3rdparty/json-c/json_tokener.c:325-329 | what counts as white space |
| JsonWords.WordParsed | sources/dap-sdk/3rdparty/json-c/json_tokener.c:420-510 | null, true, false, NaN, Infinity and -Infinity are parsed as what they mean, in letters of any case outside strict mode |
| Checksum.InCksum | sources/dap-sdk/3rdparty/iputils/ping.c:1225-1254 | the complement of the one's complement sum on top of a salt; the signed accumulator does not overflow and two folds suffice |
| Checksum.InCsum | sources/dap-sdk/3rdparty/iputils/traceroute/csum.c:15-33 | the same checksum with all ones for zero |
| Checksum.ImplementationsAgree | sources/dap-sdk/3rdparty/iputils/traceroute/csum.c:15-33 | the two agree up to the two forms of zero, differ only for a sum of all ones, and a packet carrying either sums to zero |
| Checksum.OnlyTheCheckPasses | sources/dap-sdk/3rdparty/iputils/ping.c:1225-1254 | a packet sums to zero for the right checksum and no other, but for the two forms of zero |
| Checksum.TwoStepsAreOne | sources/dap-sdk/3rdparty/iputils/ping.c:1029-1049 | adding the timestamp's sum to the first checksum gives the checksum of the final packet |
| Checksum.OddByte | sources/dap-sdk/3rdparty/iputils/ping.c:1240-1246 | an odd byte at the end counts as the low byte of a word |
| Checksum.KnownCheck | sources/dap-sdk/3rdparty/iputils/ping.c:1225-1254 | the example in section 3 of RFC 1071 has the checksum given there |
| Checksum.SendProbe | sources/dap-sdk/3rdparty/iputils/ping.c:1021-1049 | the packet that is sent is the probe with its own checksum, for every length, timed or not |
| PollArray.Context.Add | sources/dap-sdk/modules/io/dap_context.c:1249-1266 | one slot more, with the socket and its descriptor; the others stay |
| PollArray.Context.Remove | sources/dap-sdk/modules/io/dap_context.c:1441-1453 | the socket's slot, and only that, is marked free |
| PollArray.Context.Compact | sources/dap-sdk/modules/io/dap_context.c:1066-1083 | exactly the live slots remain, in order, each socket's index following it, although the index wraps below zero |
| PollArray.Context.IndexLeadsBack | sources/dap-sdk/modules/io/dap_context.c:1249-1266 | an attached socket's index points at a slot that holds it and its descriptor |

## Findings

Where the code does not do what it promises, the code is modelled as it is, and a lemma gives the input.

| where | what fails | shown by |
|---|---|---|
| linkhash.c:550-558 | lh_table_resize stores the requested size even if the new table grew while it was filled | LinkHash.ShrunkTooFar; exact condition in LinkHash.Table.Resize |
| wepoll.c:1444-1447 | the assertion in port_get_iocp_handle fails when a socket is added after epoll_close has begun and a new group is needed | PortRuns.LateRun; exact condition in PortRuns.StepLate |
| json_tokener.c:1199-1223 | a NUL inside a comment makes an inner value the result, and the depth stays; the value of the next call is then dropped and its nodes are leaked | JsonLeft.OpenComment, JsonLeft.NextValueDropped; exact conditions in JsonLeft.LeavesLevels and JsonTokener.Tokener.CaseFinish |
| json_tokener.c:856-881 | a number that is cut between two calls is scanned anew from partial state | JsonChunks.CutBeforeSign; exact condition in JsonChunks.CutExact and JsonPieces.PiecesAreWhole |
| json_tokener.c:172-182 | json_tokener_reset keeps a high surrogate that waits for its partner | JsonStrings.SurrogateLeft; exact condition in JsonStrings.LeftSurrogateMatters, JsonSurrogate.AnyNextText and JsonSurrogate.AnyString |
| json_tokener.c:1230-1254 | validation accepts encoded surrogates and overlong forms | JsonStrings.MisfitsPass; exact condition in JsonStrings.ValidationExact |
| json_tokener.c:118-119 | characters above U+FFFF are taken for surrogates by their low 16 bits | JsonStrings.MistakenRead; exact condition in JsonStrings.DecodedAsMeant |

## Left out

- CutExact: on a level that an earlier success has reset, only the half that a cut which does not matter changes nothing; there the next value may fall to the level below at the cut.
- OneCut: speaks of a tokener without levels left behind, for the same reason.
- PiecesAreWhole: with levels left behind, only that harmless cuts change nothing.
- AnyNextText: what becomes of a key or string that is read otherwise, which a later member of the same name may replace, is not followed.
- Reset: the copies of field names, which json_tokener_reset_level also frees, are not counted; only nodes are.
- RoundTrip: leaves out doubles, whose text is formatted and read by the C library; strtod is a parameter, and a double is held and compared by its text.
- EqualIsSame: two doubles are the same if their texts are, where json_object_equal compares their values.
- GrammarParsed: decoding is stated by the tokener's own pairs of surrogates; DecodedAsMeant says when that is what they mean.
- ToJsonString: the output is shorter than INT_MAX - 9 bytes; beyond that the printers drop what does not fit, which is not modelled.
- Memappend: realloc does not fail; in LinkHash allocation failure is a parameter, elsewhere it is not modelled.
- PushLevel: the levels below the top are held as the containers they wait with; their states array_add and object_value_add are the two kinds of frame.
- ParseEx: the test of the length against INT32_MAX is not modelled; calling it again after an error without json_tokener_reset is not modelled.
- Hashlittle: the little-endian paths only; the random seed is a parameter.
- Delete: of the port: closing the completion port and the group handles are not modelled.
- SendProbe: the system call that sends the packet is not modelled.
- Windows NT calls and system calls: the kernel answers as it likes, and may refuse submissions and cancellations.
- PortState: records are values in a map from pointers instead of heap objects; the circular lists under the queues are in Queue and are related to the port's sequences only by their contracts.
- free_fn callbacks, JSON_C_OBJECT_ADD_KEY_IS_NEW, custom serializers and user data of json-c.
- json_pointer.c, arraylist.c, json_visit.c and the iterators of json-c; arrays are sequences.
- The other branches of the reactor, and socket handling, options and output of ping and traceroute.
- Error codes, logging, locales and errno.
