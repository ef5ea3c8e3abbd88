# NetStuff newline packetizer: a verified model

This project models the core of NetStuff. NetStuff is a small Winsock networking layer. Connections deliver bytes as *fragments*: `deque<Fragment>` of `(stamp, data)`. Each *packet pipe* turns the fragments of one connection into newline-terminated records. The project covers:

- **Fragment buffers** (`Fragments`): `SplitFragPrefix` and `SplitFragSuffix`, plus `ErasePrefixTo` and `CopySuffixFrom`, which cut and copy a deque at a `PackCont (fragNo, partNo)` position. `Flat` gives the byte stream a deque stands for.
- **The token generator** (`Tokens`): `ConTokenGen` holds the free ids 0..99 and always hands out the smallest.
- **The two-deque cursor** (`Cursor`): `PackContIt` walks the buffered deque `fst` and then the fresh one `snd`. It has the `canary` step counter that asserts past 1000. Positions are also read as a global fragment index into `fst + snd`.
- **Packet extraction** (`PackNlDelEx`): `ReadyPacketPos`, `GetFromTo` and `GetPacket`, both as written and corrected (see Findings). `PacketizeAsWritten` is the `GetPacket` loop of `PipePacket::RemakeForRead`. `Packetize` is the same loop with the corrected copy, and lemmas tie the two together.
- **Pipes** (`Pipes`):
  - the deferred `PostProcess` steps;
  - `PipePacket::RemakeForRead`, including the buffers the pipe copy shares with the original;
  - `PipeSet::MergePacketed` and `PipeSet::RemakeForRead`, which packetizes every read first and only then runs the queued steps.
- **One pipe round** (`PipeRounds`): what a round achieves end to end. A pipe's in buffer holds no `'\n'`. The round queues one entry per complete record. Each entry ends with its record, and is exactly that record unless two records end in one fragment (see Findings). The records plus the kept bytes are the old bytes followed by the new ones. The buffer again holds no `'\n'`.
- **Connection tables** (`Connections`):
  - the outcome classification of `MessSock::StagedRead`, with the poll result and each connection's read outcome given as inputs;
  - `MessSock::AcceptedConsMulti` and `AddConsMulti` (without the rollback);
  - the fully in-memory `PrimitiveMemonly`/`MessMemonly` table, with `MakePrims` and `StagedRead`.
- **The earlier copy** (`Legacy`): the WinSock1 `PackContIt`, whose `AdvanceFrag` differs, and its `GetFromTo`.
- **The in-memory transfer prototype** (`Prototype`): the S2 classes of WinSock1/Source.cpp (`PrimitiveMemonly`, `PrimitiveZombie`, `Managed`, `ManagedGroup`) and the `main` scenario.

Source paths below are relative to the repository root. WinSock1/NetStuff.cpp is an earlier copy of NetStuff/NetStuff.cpp. The members below cover both copies wherever the code is the same:

- `ErasePrefixTo` (33-42) and `CopySuffixFrom` (43-51);
- `ConTokenGen` (196-207);
- `MessSock::StagedRead` (315-351);
- the `PostProcess` steps (353-379).

Only its `PackContIt` differs, and it is modelled separately as `Legacy`.

Modelling choices:

- **Exceptions.**
  - A reachable `assert(0)`, such as the canary, is the `Aborted` outcome of `Checked<T>`.
  - `std::out_of_range` is an `ok == false` result or the `OutOfRange` outcome.
  - "Out of tokens" is `None`.
  - The `assert(0)` in the newer `AdvanceFrag` cannot be reached from a valid cursor. In the model it is a proved-dead branch.
- **Shared pointers and in-place mutation.**
  - Buffers and queues that are shared through `shared_ptr` and mutated in place are classes (`FragBuf`, `PacketQueue`).
  - The cursor, the token generator, the pipes and the connection tables are classes whose methods update their fields.
  - Pure decisions are functions. Each method is proved against such a function.

## Model

| member | source | states |
|---|---|---|
| Fragments.SplitFragPrefix | NetStuff/NetStuff.cpp:68-70 | `substr(0, partNo)`: a prefix of the data, of length `min(partNo, |data|)` |
| Fragments.SplitFragSuffix | NetStuff/NetStuff.cpp:72-74 | `substr(partNo)` throws exactly when `partNo > |data|`; otherwise prefix and suffix rebuild the data |
| Fragments.ErasePrefixTo | NetStuff/NetStuff.cpp:76-84 | the deque after the erase, as written (the front is replaced from `at(fragNo)` of the already shortened deque), and whether `at`/`substr` threw |
| Fragments.ErasePrefixToAgrees | NetStuff/NetStuff.cpp:76-94 | when `fragNo == 0` or `partNo == 0`, `ErasePrefixTo` leaves exactly the fragments `CopySuffixFrom` would append |
| Fragments.ErasePrefixToWrongFragment | NetStuff/NetStuff.cpp:78-81 | for `["ab","cd","efg"]` at `(1,1)` the erase leaves `["fg","efg"]`, whose bytes are not the stream's bytes from the position (`"defg"`) |
| Fragments.ErasePrefixToIntended | NetStuff/NetStuff.cpp:76-84 | the corrected erase leaves the suffix from the position, whose bytes are the stream's bytes from that offset on |
| Fragments.CopySuffixFrom | NetStuff/NetStuff.cpp:86-94 | a no-op at `fragNo == |deq|`; it throws exactly when the position is out of range; otherwise it appends the rest of fragment `fragNo` and every later fragment after `out`'s old contents, which it never changes |
| Fragments.SuffixFromBytes | NetStuff/NetStuff.cpp:86-94 | the fragments `CopySuffixFrom` appends carry exactly the stream's bytes from the position's offset |
| Fragments.CutRoundTrip | NetStuff/NetStuff.cpp:68-74 | cutting a deque at a position with the prefix/suffix splits and joining the halves gives back the byte stream; the prefix is `Offset` bytes long |
| Tokens.ConTokenGen.constructor | NetStuff/NetStuff.cpp:272 | a fresh generator holds exactly the ids 0..99 |
| Tokens.ConTokenGen.GetToken | NetStuff/NetStuff.cpp:274-279 | on an empty set: "Out of tokens" and nothing changes; otherwise it returns the smallest free id and removes it |
| Tokens.ConTokenGen.ReturnToken | NetStuff/NetStuff.cpp:281-283 | the id is back in the free set |
| Tokens.SortedKeysSpec | NetStuff/NetStuff.cpp:268-270 | iterating a set or map ordered by `ConTokenLess` visits every key exactly once, in strictly ascending id order |
| Tokens.IssueDistinct | NetStuff/NetStuff.cpp:274-279 | successive `GetToken` calls without a return give distinct ids, in ascending order, all from the free set, as many as were asked for while ids remain |
| Tokens.IssueRemaining | NetStuff/NetStuff.cpp:274-279 | after n calls every originally free id was either handed out or is still free, never both; n ids fewer remain |
| Tokens.FreshIssueInOrder | NetStuff/NetStuff.cpp:272-279 | a generator holding lo..99 hands out lo, lo+1, … in order |
| Tokens.FreshGeneratorHandsOutInOrder | NetStuff/NetStuff.cpp:272-279 | a fresh generator's first three tokens are 0, 1, 2 |
| Tokens.LowestId | NetStuff/NetStuff.cpp:274-279 | the smallest id of lo..n-1 is lo, and removing it leaves lo+1..n-1 |
| Cursor.GlobalRoundTrip | NetStuff/NetStuff.cpp:286-308 | a `(fragNo, partNo, inIn)` position with `inIn ⇒ fragNo < |fst|` and `¬inIn ⇒ fragNo ≤ |snd|` is one global fragment index of `fst + snd`, and back |
| Cursor.AtGlobalValid | NetStuff/NetStuff.cpp:286-308 | every global index up to `|fst| + |snd|` is a valid position |
| Cursor.PackContIt.constructor | NetStuff/NetStuff.cpp:286 | the cursor starts at `(0, 0, |fst| > 0)`, global index 0, canary 0, so an empty `fst` is skipped |
| Cursor.PackContIt.Copy | NetStuff/NetStuff.cpp:328-329 | the copy has the same deques, position and canary |
| Cursor.PackContIt.Assign | NetStuff/NetStuff.cpp:487-506 | `*fpos = pos` takes over the other cursor's position and canary |
| Cursor.PackContIt.CurFragData | NetStuff/NetStuff.cpp:310-313 | the data of the current fragment of `fst + snd` |
| Cursor.PackContIt.AdvanceToPart | NetStuff/NetStuff.cpp:294-297 | `partNo` becomes `min(w, current fragment length)`, or 0 past the end; the fragment does not change |
| Cursor.PackContIt.AdvanceFrag | NetStuff/NetStuff.cpp:299-308 | moves to the next global fragment, staying at the end position `(|snd|, 0, false)` once there; `partNo` is 0; the position stays valid |
| Cursor.PackContIt.AdvancePart | NetStuff/NetStuff.cpp:288-292 | `partNo + 1` inside the fragment; once it reaches the fragment's length, the start of the next fragment |
| Cursor.PackContIt.EndFragP | NetStuff/NetStuff.cpp:317-321 | the canary is bumped and asserts past 1000; otherwise true exactly at the end of `snd` |
| Cursor.PackContIt.SameFragP | NetStuff/NetStuff.cpp:323-326 | the canary is bumped and asserts past 1000; otherwise true exactly when both cursors are in the same fragment (`partNo` is ignored) |
| PackNlDelEx.FindNl | NetStuff/NetStuff.cpp:492 | `find('\n', from)` returns an index at or after `from` holding `'\n'` |
| PackNlDelEx.FindNlFirst | NetStuff/NetStuff.cpp:492 | there is no `'\n'` between `from` and the index found, nor after `from` when none is found |
| PackNlDelEx.ReadyPacketPos | NetStuff/NetStuff.cpp:487-506 | when no `'\n'` follows, the cursor and canary are unchanged and the result is false; when one is found, the cursor sits just past it; the canary assert aborts |
| PackNlDelEx.ScanFromMeaning | NetStuff/NetStuff.cpp:487-506 | the position found lies just past the first `'\n'` at or after the start; "not found" means that no `'\n'` follows in the stream |
| PackNlDelEx.ScanFromFound | NetStuff/NetStuff.cpp:487-506 | a position found is valid and not before the start; the canary stays within the limit |
| PackNlDelEx.ScanCanary | NetStuff/NetStuff.cpp:317-321 | the scan aborts exactly when one `EndFragP` per fragment visited takes the canary past 1000 |
| PackNlDelEx.GetFromTo | NetStuff/NetStuff.cpp:508-517 | appends to `accum` what the copy as written yields: from `from`'s offset to the end of its fragment, every whole fragment in between, then `[0, to.partNo)` of `to`'s fragment; it aborts on the canary |
| PackNlDelEx.CopyFromToCanary | NetStuff/NetStuff.cpp:508-517 | the copy aborts exactly when `k + (gt - g) + 1 > 1000`, i.e. when its `gt - g + 2` checks (one `SameFragP` per fragment from `g` to `gt`, then the `EndFragP`) take the canary past 1000 |
| PackNlDelEx.CopyFromToBytes | NetStuff/NetStuff.cpp:508-517 | the copy as written gives the stream bytes between the two positions, except that in a shared fragment it starts at byte 0 of that fragment |
| PackNlDelEx.CopyFromToAgrees | NetStuff/NetStuff.cpp:508-517 | when the two cursors are in different fragments, or the start is at offset 0, the copy as written is the intended copy |
| PackNlDelEx.CopyFromToSameFragment | NetStuff/NetStuff.cpp:515-516 | for `"a\nb\nc"` from offset 2 to 4 the copy as written gives `"a\nb\n"`; the bytes between are `"b\n"` |
| PackNlDelEx.GetFromToIntended | NetStuff/NetStuff.cpp:508-517 | the corrected copy appends exactly what `CopyFromToIntended` yields |
| PackNlDelEx.CopyFromToIntendedBytes | NetStuff/NetStuff.cpp:508-517 | the corrected copy gives exactly the stream bytes between the two positions; it aborts exactly when the canary passes the limit |
| PackNlDelEx.GetPacket | NetStuff/NetStuff.cpp:519-527 | as written: no record leaves cursor, canary and output unchanged; a record is appended to `out` and the cursor moves past its `'\n'` |
| PackNlDelEx.GetPacketIntended | NetStuff/NetStuff.cpp:519-527 | the same with the corrected copy |
| PackNlDelEx.NextPacketAsWritten | NetStuff/NetStuff.cpp:519-527 | `GetPacket` as written: a record taken ends at a valid position not before the start, with the canary increased and within the limit |
| PackNlDelEx.NextPacket | NetStuff/NetStuff.cpp:519-527 | the corrected `GetPacket` step: the same bounds on the cursor and the canary |
| PackNlDelEx.NextPacketAsWrittenShape | NetStuff/NetStuff.cpp:508-527 | `GetPacket` as written and corrected have the same outcome, cursor and canary; the record as written ends with the corrected record, and equals it when the record starts at byte 0 of a fragment or in an earlier fragment than its `'\n'` |
| PackNlDelEx.FoundIsRecord | NetStuff/NetStuff.cpp:487-527 | the bytes from the start to just past the first `'\n'` form one record: they end in `'\n'` and hold no other |
| PackNlDelEx.PacketizeMeaning | NetStuff/NetStuff.cpp:565-576 | the corrected pass: the records joined are exactly the stream bytes from the start to the final cursor; each ends in its `'\n'` and holds no other; no `'\n'` follows the final cursor |
| PackNlDelEx.PacketizeAsWrittenMeaning | NetStuff/NetStuff.cpp:565-576 | the pass as written aborts exactly when the corrected pass does; otherwise it ends at the same cursor with as many records, each ending with the corrected record |
| PackNlDelEx.ScanFromLands | NetStuff/NetStuff.cpp:487-506 | a found position is at byte 0 of a fragment or just past a `'\n'` of its fragment, after the start when in the start's fragment |
| PackNlDelEx.PacketizeOneNewlineAgrees | NetStuff/NetStuff.cpp:508-576 | when no fragment holds two `'\n'`, the pass as written from byte 0 (or from just past a `'\n'`) takes exactly the corrected records |
| PackNlDelEx.PacketizeDuplicates | NetStuff/NetStuff.cpp:515-516 | on one fragment `"a\nb\nc"` the pass as written takes `"a\n"` and then `"a\nb\n"`; the corrected pass takes `"a\n"` and `"b\n"` |
| Pipes.CopySuffixFromIsSuffixCopy | NetStuff/NetStuff.cpp:86-94 | the value-level copy used by the steps is exactly what `CopySuffixFrom` appends |
| Pipes.CullPrefixAndMergeProcess | NetStuff/NetStuff.cpp:544-553 | cursor in `snd`: `in` becomes the suffix of `extra` from the cursor; cursor in `fst`: `ErasePrefixTo` on `in`, then all of `extra` appended; failures as the code throws them |
| Pipes.PackWriteProcess | NetStuff/NetStuff.cpp:556-558 | `src` is appended to `dest` in order |
| Pipes.FragmentWriteProcess | NetStuff/NetStuff.cpp:538-541 | the read fragments are appended to `deq` in order |
| Pipes.Process | NetStuff/NetStuff.cpp:531-558 | running one step changes the heap buffers exactly as the step's value-level effect |
| Pipes.ProcessAll | NetStuff/NetStuff.cpp:629 | the steps run in queue order, each on the state the previous left |
| Pipes.RunStepsFirst | NetStuff/NetStuff.cpp:629 | the first step runs first; when it throws, the later steps do not run |
| Pipes.PrependStep | NetStuff/NetStuff.cpp:572-575 | the extraction loop collects the records of `GetPacket` as written in arrival order until it reports none |
| Pipes.PacketQueue.constructor | NetStuff/NetStuff.cpp:563 | a new packet queue is empty |
| Pipes.PipePacket.constructor | NetStuff/NetStuff.cpp:560-563 | a new pipe has fresh, distinct, empty `in`, `out` and `inPack` buffers |
| Pipes.PipePacket.Copy | NetStuff/NetStuff.cpp:580 | `new PipePacket(*this)` shares `in`, `out` and `inPack` with the original |
| Pipes.PipePacket.RemakeForRead | NetStuff/NetStuff.cpp:565-586 | it changes nothing; it returns a fresh pipe sharing the original's buffers and queues a cull/merge step at the final cursor and then a pack-write step of the records `GetPacket` as written takes, both on those shared buffers |
| Pipes.PipeSet.MergePacketed | NetStuff/NetStuff.cpp:608-619 | the new key set is the old one plus the tokens; existing pipes are kept unchanged, none is removed, and every new pipe is fresh and empty |
| Pipes.PipeSet.AddPipe | NetStuff/NetStuff.cpp:617 | one fresh, empty pipe is added under a token that had none |
| Pipes.PipeSet.RemakeForRead | NetStuff/NetStuff.cpp:621-630 | every read is packetized before any step runs; reads of unknown tokens are skipped; the steps then run in order and the buffers end as the steps say |
| Pipes.PipeSet.QueueSteps | NetStuff/NetStuff.cpp:624-627 | the steps queued are those `PipePacket::RemakeForRead` (as written) gives for each known token's read, in read order |
| Pipes.CollectStep | NetStuff/NetStuff.cpp:624-627 | one more read adds nothing for an unknown token, and that pipe's two steps for a known one |
| Pipes.CollectAbortedExtends | NetStuff/NetStuff.cpp:624-627 | once one pipe's extraction asserts, the whole round does |
| PipeRounds.PipeRound | NetStuff/NetStuff.cpp:565-586 | a pipe whose buffer holds no `'\n'`, as written: its two steps run normally; only its own buffer and queue change; after what it held, the queue gets one entry per corrected record, each ending with that record and so in `'\n'`; the corrected records plus the kept bytes equal the old bytes followed by the read bytes; the buffer again holds no `'\n'` |
| PipeRounds.RoundBytes | NetStuff/NetStuff.cpp:544-586 | the same on the bytes, as written: the cull at the common final cursor succeeds, and the records as written widen the corrected ones, which lose and duplicate nothing |
| PipeRounds.BufferedTakesNothing | NetStuff/NetStuff.cpp:565-586 | as written: a final cursor inside the buffered bytes means no record was taken and the cursor is at byte 0 |
| PipeRounds.PipeRoundOneNewline | NetStuff/NetStuff.cpp:565-586 | when no fragment read holds two `'\n'`, the round as written queues exactly the corrected round's steps |
| PipeRounds.PipeRoundIntended | NetStuff/NetStuff.cpp:565-586 | the corrected round: the queue gets complete records only, and the records plus the kept bytes are the old bytes followed by the read bytes |
| PipeRounds.PipeRoundDuplicates | NetStuff/NetStuff.cpp:515-516 | an empty pipe reading `"a\nb\nc"` queues `"a\n"` and `"a\nb\n"` and keeps `"c"`; the corrected round queues `"a\n"` and `"b\n"` |
| PipeRounds.RunStepsAppend | NetStuff/NetStuff.cpp:629 | running the queued steps in two parts gives the same outcome and buffers as running them at once, the second part starting where the first ended normally |
| PipeRounds.SetRound | NetStuff/NetStuff.cpp:621-630 | for pipes that share no buffer, each holding no `'\n'`, and reads naming each connection at most once, a whole round as written ends normally, leaves every pipe's buffer with no `'\n'`, and does not change the buffer of a pipe no read names |
| PipeRounds.StageAllDistinct | NetStuff/NetStuff.cpp:407-432 | a round visits each connection once, so its read entries name distinct connections |
| PipeRounds.CullAtStart | NetStuff/NetStuff.cpp:544-549 | culling at byte 0 of the buffered fragments keeps every buffered byte and appends all of `extra` |
| PipeRounds.CullInFresh | NetStuff/NetStuff.cpp:550-552 | a final cursor in the fresh fragments keeps exactly the stream bytes from the cursor on |
| PipeRounds.RunTwo | NetStuff/NetStuff.cpp:579-583 | the two steps of one pipe, run in order, replace its buffer and extend its queue |
| Connections.Classify | NetStuff/NetStuff.cpp:412-421 | a block gives no disconnect entry; a disconnect gives `graceful = true`; any other failure gives `graceful = false` |
| Connections.StageOneEntries | NetStuff/NetStuff.cpp:405-428 | a polled connection adds a read entry exactly when fragments were read, whatever ended the read, and a disconnect entry exactly when the read did not end in a block |
| Connections.StageAllReads | NetStuff/NetStuff.cpp:396-432 | the read entries of a round are exactly those of the ready connections that read something |
| Connections.StageAllDiscs | NetStuff/NetStuff.cpp:396-432 | the disconnect entries are exactly those of the ready connections whose read did not end in a block, with the right `graceful` |
| Connections.StageAllOrdered | NetStuff/NetStuff.cpp:402-429 | entries come in ascending token order |
| Connections.StageConnection | NetStuff/NetStuff.cpp:405-428 | one connection's try/catch and staging |
| Connections.MessSock.constructor | NetStuff/NetStuff.cpp:371 | no connections, and a fresh generator |
| Connections.MessSock.TakeTokens | NetStuff/NetStuff.cpp:379 | one `GetToken` per handle: the smallest free ids in order, or "Out of tokens" |
| Connections.MessSock.ReturnTokens | NetStuff/NetStuff.cpp:383 | the tokens taken are back in the free set |
| Connections.MessSock.AddConsMulti | NetStuff/NetStuff.cpp:355-360 | each new token maps to a fresh `CtData` of its handle; old entries are kept |
| Connections.MessSock.AcceptedConsMulti | NetStuff/NetStuff.cpp:373-388 | with enough free tokens, the smallest ones are issued and each handle gets its entry; otherwise the tokens go back and the table is unchanged |
| Connections.MessSock.StagedRead | NetStuff/NetStuff.cpp:396-432 | empty with no connections; `None` when the poll fails; otherwise the staged round over the connections in token order |
| Connections.FirstNull | NetStuff/NetStuff.cpp:236 | the index of the first null pointer, with only strings before it |
| Connections.NewPrimitiveMemonly | NetStuff/NetStuff.cpp:235-238 | the read queue holds one `EmptyStamp` fragment per string before the first null, in order |
| Connections.MakePrims | NetStuff/NetStuff.cpp:240-251 | one primitive per null-terminated group of strings |
| Connections.MakePrimsReadsLayout | NetStuff/NetStuff.cpp:240-251 | for non-empty groups laid out each followed by a null, and a final null, primitive i reads exactly group i |
| Connections.ReadUMovesFront | NetStuff/NetStuff.cpp:259-264 | an empty read queue disconnects and changes nothing; otherwise exactly the front fragment moves to `w`, and then it blocks |
| Connections.MemStageAllReads | NetStuff/NetStuff.cpp:454-483 | a memory-only round's read entries are exactly the front fragments of the non-empty queues |
| Connections.MemStageAllDiscs | NetStuff/NetStuff.cpp:454-483 | its disconnect entries are exactly the empty queues, all graceful |
| Connections.MemonlyRoundReads | NetStuff/NetStuff.cpp:454-483 | over the whole table: one read entry, the front fragment, per non-empty queue |
| Connections.MemonlyRoundDiscs | NetStuff/NetStuff.cpp:454-483 | over the whole table: one graceful disconnect per empty queue |
| Connections.MemonlyRoundOrder | NetStuff/NetStuff.cpp:454-483 | entries in ascending token order; every connection stays; each non-empty queue loses exactly its front |
| Connections.ReadRound | NetStuff/NetStuff.cpp:458-480 | the loop over the table in token order yields the staged round and the table after one `ReadU` each |
| Connections.InsertedKeys | NetStuff/NetStuff.cpp:438-443 | inserting primitives under fresh tokens adds exactly the tokens issued |
| Connections.InsertedValues | NetStuff/NetStuff.cpp:438-443 | the i-th token issued maps to the i-th primitive |
| Connections.InsertedKeepsOld | NetStuff/NetStuff.cpp:438-443 | existing entries are kept |
| Connections.MessMemonly.constructor | NetStuff/NetStuff.cpp:436 | no connections, `numCons == 0`, all ids free |
| Connections.MessMemonly.AcceptedConsMulti | NetStuff/NetStuff.cpp:438-443 | each primitive gets the next smallest token; "Out of tokens" stops the loop with the earlier insertions kept; `numCons` is the table size on success |
| Connections.MessMemonly.StagedRead | NetStuff/NetStuff.cpp:454-483 | the staged round over the table in token order, and every queue read once |
| Legacy.OldNext | WinSock1/NetStuff.cpp:223-231 | the older `AdvanceFrag` step: it asserts past `|curr|`, switches to `snd` only at `fragNo == |fst|`, and otherwise increments `fragNo` without clamping; `partNo` becomes 0 |
| Legacy.FragAt | WinSock1/NetStuff.cpp:233-236 | `curr.at(fragNo)` throws exactly past the end of the current deque |
| Legacy.OldPackContIt.constructor | WinSock1/NetStuff.cpp:210 | starts at `(0, 0, |fst| > 0)` with canary 0 |
| Legacy.OldPackContIt.Copy | WinSock1/NetStuff.cpp:251-252 | the copy has the same deques, position and canary |
| Legacy.OldPackContIt.CurFragData | WinSock1/NetStuff.cpp:233-236 | the current fragment's data, or `out_of_range` |
| Legacy.OldPackContIt.AdvanceToPart | WinSock1/NetStuff.cpp:218-221 | `partNo` becomes `min(w, fragment length)`, or 0 past the end |
| Legacy.OldPackContIt.AdvanceFrag | WinSock1/NetStuff.cpp:223-231 | moves as `OldNext` says, or asserts |
| Legacy.OldPackContIt.AdvancePart | WinSock1/NetStuff.cpp:212-216 | `partNo + 1`; `out_of_range` off a fragment; at the fragment's length, `AdvanceFrag` |
| Legacy.OldPackContIt.EndFragP | WinSock1/NetStuff.cpp:240-244 | canary check; true exactly at `(|snd|, _, false)` |
| Legacy.OldPackContIt.SameFragP | WinSock1/NetStuff.cpp:246-249 | canary check; same `inIn` and `fragNo` |
| Legacy.GetFromTo | WinSock1/NetStuff.cpp:251-260 | appends what the older walk yields, or the fault that stops it |
| Legacy.OldNextAgrees | WinSock1/NetStuff.cpp:223-231 | away from the last fragment of `fst`, the older step is the newer one |
| Legacy.OldNextStrands | WinSock1/NetStuff.cpp:223-231 | from the last fragment of `fst` the older step lands on `(|fst|, 0, true)`, which names no fragment, so `CurFragData` throws there |
| Legacy.OldNextOverruns | WinSock1/NetStuff.cpp:223-231 | from the end of `snd` the older step goes one past it, where the next step asserts |
| Legacy.OldCopyCrossingThrows | WinSock1/NetStuff.cpp:251-260 | a copy that starts in `fst` at `fragNo` and stops in `snd` throws `out_of_range`, when the canary has room for the `|fst| - fragNo` checks before the stranding step (`k + |fst| - fragNo <= 1000`) |
| Legacy.OldCopyLosesRecord | WinSock1/NetStuff.cpp:223-260 | fst `["a"]`, snd `["b\n"]`: the older copy throws, while the record is `"ab\n"` |
| Prototype.Primitive.Memonly | WinSock1/Source.cpp:314-316 | a memory-only primitive starts with empty queues and the dummy poll value |
| Prototype.Primitive.Zombie | WinSock1/Source.cpp:328-331 | a zombie has the dummy poll value |
| Prototype.Primitive.WriteU | WinSock1/Source.cpp:317-320 | memory-only: all of `w` joins the write queue in order and `w` is left empty; a zombie blocks and changes nothing |
| Prototype.Primitive.ReadU | WinSock1/Source.cpp:321-325 | memory-only: nothing when the read queue is empty, otherwise its front moves to the back of `w`, nothing lost; a zombie blocks and changes nothing |
| Prototype.Step | WinSock1/Source.cpp:336-339 | one transfer moves at most one fragment from read to in and all of out to write, nothing lost; a zombie member does not change |
| Prototype.Managed.constructor | WinSock1/Source.cpp:333-335 | fresh, distinct, empty in and out queues |
| Prototype.Managed.Transfer | WinSock1/Source.cpp:336-339 | read into in, then write from out, blocks swallowed: the member changes as `Step` says |
| Prototype.Drain | WinSock1/Source.cpp:321-339 | at least as many transfers as queued fragments leave the read queue empty and the in queue holding its old contents followed by every read fragment, in order |
| Prototype.ZombieStays | WinSock1/Source.cpp:328-339 | a zombie member never changes |
| Prototype.ManagedGroup.TransferAll | WinSock1/Source.cpp:344 | every member is transferred once |
| Prototype.ManagedGroup.Fds | WinSock1/Source.cpp:348-352 | the poll value of each member's primitive, in order |
| Prototype.ManagedGroup.PollValues | WinSock1/Source.cpp:346-352 | the array of poll values |
| Prototype.ScanDummy | WinSock1/Source.cpp:354-355 | true exactly when every entry is the dummy value −1 |
| Prototype.ManagedGroup.Transfer | WinSock1/Source.cpp:345-366 | with every poll value the dummy (the default of `GetPollFd`), no poll is consulted and every member is transferred exactly once; otherwise a failed poll changes nothing and a positive count transfers the dummy and ready members |
| Prototype.ManagedGroup.TransferAt | WinSock1/Source.cpp:362-363 | transferring one member leaves every other member unchanged |
| Prototype.MakeGroup | WinSock1/Source.cpp:428-436 | the memory-only member's read queue holds the pushed fragments in order; the zombie member is empty |
| Prototype.Scenario | WinSock1/Source.cpp:424-441 | after 5 group transfers the memory-only member's in queue holds the 5 fragments in order, its read queue is empty, and the zombie's in queue is empty |

## Findings

| source | as written | input that shows it | evidently intended | confidence | as-written member | corrected member |
|---|---|---|---|---|---|---|
| NetStuff/NetStuff.cpp:515-516 | when both cursors are in the same fragment, `GetFromTo` copies `[0, to.partNo)` and ignores `from`'s offset | one fragment `"a\nb\nc"`, from offset 2 to offset 4: `"a\nb\n"` is copied instead of `"b\n"`, so the second record repeats the first | copy `[from.partNo, to.partNo)` | not executed | PipeRounds.PipeRoundDuplicates | PipeRounds.PipeRoundIntended |
| NetStuff/NetStuff.cpp:78-81 | `ErasePrefixTo` reads `deq->at(pc.fragNo)` after erasing `fragNo` fragments, so it splits the wrong fragment | `["ab","cd","efg"]` at `(1,1)` leaves `["fg","efg"]` instead of `["d","efg"]` | split the new front fragment | not executed | Fragments.ErasePrefixToWrongFragment | Fragments.ErasePrefixToIntended |
| WinSock1/NetStuff.cpp:223-231 | the older `AdvanceFrag` leaves the last fragment of `fst` for `(|fst|, 0, true)`, which names no fragment | fst `["a"]`, snd `["b\n"]`: copying the record from `(0,0,fst)` to `(0,2,snd)` throws `out_of_range` instead of giving `"ab\n"` | switch to `(0, 0, snd)` after the last fragment of `fst`, as NetStuff/NetStuff.cpp:299-308 does | not executed | Legacy.OldCopyLosesRecord | Cursor.PackContIt.AdvanceFrag |

How the pipeline uses these:

- **`GetFromTo`.** The pipes run the code as written: `PipePacket.RemakeForRead` calls `GetPacket`, and its steps come from `PacketizeAsWritten`. The corrected copy (`GetFromToIntended`, `Packetize`, `RemakeStepsIntended`) is the intended half. `CopyFromToAgrees` and `NextPacketAsWrittenShape` show that the two differ only when a record starts in the middle of the fragment where it ends; an entry as written then carries that fragment's earlier bytes in front of the record. `PipeRoundOneNewline` proves the round as written correct whenever no fragment read holds two `'\n'`.
- **`ErasePrefixTo`.** The pipe steps keep `ErasePrefixTo` as written. `PipeRound` proves that every cull in a pipe round erases at `(g, 0)` with the bytes before it empty. `ErasePrefixToAgrees` proves that at such positions the code as written and the corrected erase agree.

## Left out

- Connections.MakePrimsReadsLayout: stated for non-empty groups only. An empty group lays out a lone null, which `MakePrims` reads as the end of the list, so the groups after it are not built; `Connections.MakePrims` itself models that.
- PacketizeMeaning: it states the meaning of the corrected pass. The pass the pipe runs is `PacketizeAsWritten`, and its records are the corrected ones only up to the leading bytes described by `PacketizeAsWrittenMeaning`.
- Sockets, `WSAPoll`, `recv` and `WinsockWrap` are not modelled. The poll result and each connection's read outcome (the fragments read and the exception that ended the read) are inputs to `Connections.MessSock.StagedRead`. `PrimitiveListening` and `MessSockSlave` are not part of this model.
- The rollback loop of `MessSock::AddConsMulti` (NetStuff/NetStuff.cpp:364-365) increments `i` instead of `j` and walks out of bounds. It is not a specifiable rollback.
- Connections.MessSock.AddConsMulti: it requires the new tokens to be absent and ascending, as `AcceptedConsMulti` guarantees. The failed-insert path is not modelled.
- `numCons` is kept as an unbounded count. No table exceeds the 100 tokens, so the 32-bit width never matters.
- Logging (`LOG`, glog initialisation) is not modelled.
- `PrimitiveMemonly::WriteU` in NetStuff/NetStuff.cpp:253-257 is `assert(0)` and is not modelled. The base `PostProcess::Process` always throws and is not modelled either.
- The WinSock1 `PipePacket::RemakeForRead` (WinSock1/NetStuff.cpp:386-406) calls `NetStuff::PackNlDelEx::GetPacket`, which that copy does not define. Its steps are covered through the shared `Pipes` members.
- Heap lifetime is not modelled. This includes the `new PipePacket` that `PipeSet::RemakeForRead` discards, and `PipeMaker`'s casts.
- Pipes.PipeSet.MergePacketed: the new pipes are created in the order of `toks`, not of the sorted set difference. The resulting map is the same. The order shows only in the log.
- Pipes.PipePacket.RemakeForRead: it takes the buffered bytes as a snapshot (the copy's `in` is the original's, read before any step runs). This matches the code, because every step of the round runs later.
- Stamps are carried, but no property is about them. `EmptyStamp` is a constant. `Uint32ToString` is not modelled.
- Erasing more fragments than the deque holds is undefined behaviour in C++. The model reports it as the `Undefined` outcome and proves that a pipe round never reaches it.
- The `#if 0` block and the `S3` skeletons of WinSock1/Source.cpp are not modelled. Project1, Project2 and NetStuffTest are not part of this model.
- Prototype.Primitive: the `PrimitiveBase` hierarchy is one class with a `zombie` flag and a `pollFd` constant. Both S2 primitives keep the base class's `GetPollFd`, so the constant is always the dummy.
- Prototype.ManagedGroup.Transfer: it requires that members share no primitive and no queue, which holds in the `main` scenario. A primitive shared by two members is not modelled. The `WSAPoll` answer is an input that counts only when some poll value is not the dummy.
- Prototype.Managed.Transfer: reading before writing cannot be observed in the final state, because the two calls touch different queues. The contract therefore states the combined effect.
- Prototype.Scenario: the program pushes five value-initialised `S::Fragment()`s (stamp 0, empty data). The model takes the five fragments as an input, so the contract covers that case and any other.
