# Verified models of the uthash containers and the sample protocols

This project models, in Dafny, the data structures of `samples/testserver/inc/uthash` and the three
websocket protocols of the sample server, and proves what they promise:

* **The mergesort** that `uthash.h` and `utlist.h` share, in place on linked nodes. `MergeSort.dfy` says
  what it computes on sequences and proves that stable, sorted and a permutation; `LinkSort.dfy` has the
  loops, for the four shapes of list of `Shapes.dfy`.
* **The hash table** (`HashTable.dfy`, on top of `HashBuckets.dfy`, `HashChains.dfy`, `HashOrder.dfy`,
  `Bloom.dfy`): one set of nodes threaded through bucket chains and through the application order.
  `HashClient.dfy` has the client discipline of `uthash_sample.c`, under which the table is a finite map.
* **The lists** `LL_`, `DL_` and `CDL_` of `utlist.h` (`UtList.dfy`).
* **Knuth-Morris-Pratt** in both directions and the string buffer of `utstring.h` (`Kmp.dfy`,
  `UtString.dfy`).
* **The mirror ring** (`Mirror.dfy`), **the status broadcaster** (`Status.dfy`) and **the file transfer**
  (`FileTransfer.dfy`): a state machine over events, theorems about all its runs, and the callbacks as
  methods of classes that are proved to take exactly its steps.
* **The ring buffer** `utringbuffer.h`, **the dynamic array** `utarray.h` and **the poll table** of
  `test-server-http.c` (`RingBuffer.dfy`, `UtArray.dfy`, `PollTable.dfy`).

`Arith.dfy` has the machine arithmetic (masks, shifts, powers of two), `Nodes.dfy` and `Options.dfy` what
several files share.

Conventions. A node is an object with the links of both headers; a ghost sequence gives the order in which
the links visit the nodes, and every operation says what that sequence becomes. The hash function, the
comparators, `fopen`, `lws_write` and `lws_send_pipe_choked` are parameters. Sizes and indices are
unbounded unless a width is written out (the lag of the mirror and the byte counter of the file client are
32-bit; the comparison with `sizeof` in the file client is one of 64-bit unsigned numbers).

Where the code and what is said about it differ, the code is followed:

* Once a status session is marked `changed_partway` the mark is never cleared, so it goes on resending for
  as long as it lives (`Status.ChangedForGood`). `Status.NeverRests` is a run in which that happens, and
  `Status.RestsIffUnchanged` and `Status.MarkedIfDisturbed` say exactly when: when somebody has joined or
  left while the session was walking.
* The JSON of the status protocol has a comma with no item behind it when the next peer has left and items
  were written before, and only then (`Status.DanglingComma`; a run: `Status.DanglingCommaRun`).
* The mirror checks only the lag of the session that posts. A session that others lap misses messages, and
  may stay throttled with nothing pending (`Mirror.LappedSessionIsStuck`). `Mirror.Delivery` and
  `Mirror.WhoIsLapped` say exactly when messages are missed, `Mirror.ThrottledBacklog` and
  `Mirror.StuckByPost` exactly when a throttled session is left with a short backlog.
* In the file client a negative result of `lws_write` passes the test for a short write, because it is
  compared as an unsigned number (`FileTransfer.FileClient.Writeable`).
* When the file server cannot open its file it tells the client nothing: the connection stays up and nothing
  moves any more (`FileTransfer.ErrorHangs`; a run: `FileTransfer.ServerHangs`). There is a reply for errors in
  `test-server-file.h`, which is never sent.
* The file server ignores the file size of the request but for its upper limit, and always sends one frame
  more than `len / 10000`, an empty one when `len` is a multiple of 10000.
* `utarray_inserta` of an empty array does nothing, not even the padding that the position asks for.
* `utarray_inserta` of an array into itself copies its own copies, unless the position is at either end or
  the elements repeat from there on (`UtArrays.SelfInsertIsSplice`; an input: `UtArrays.SelfInsertFails`).
  Beyond the end the padded array is doubled.
* The `INSERT_INORDER` macros of `utlist.h` put an element before its equals, `HASH_ADD_INORDER` behind
  them. The latter always builds the list that a stable sort would build, the former exactly when every
  class of equal elements reads the same backwards (`MergeSort.LowerInsertingIsSorting`; an input:
  `MergeSort.LowerInsertingTurnsEquals`).

## Model

| member | source | states |
|---|---|---|
| MergeSort.SortIsCorrect | samples/testserver/inc/uthash/utlist.h:175-233 | for a total preorder, the merge passes with runs 1, 2, 4, … give a sorted permutation in which equal elements keep their order |
| MergeSort.StableSortIsUnique | samples/testserver/inc/uthash/utlist.h:144-146 | taking the node of the earlier run when two compare equal determines the result: two sorted lists with the same elements, in the same order, in every class of equals are the same list |
| MergeSort.PassesIsLog2 | samples/testserver/inc/uthash/utlist.h:59-59 | the number of passes over n elements is log2 n, rounded up |
| MergeSort.InsertingIsSorting | samples/testserver/inc/uthash/uthash.h:267-300 | inserting elements one by one in order gives what sorting the unordered list gives |
| MergeSort.LowerInsertingIsSortingBackwards | samples/testserver/inc/uthash/utlist.h:656-683 | inserting before equals gives the stable sort of the elements in reverse |
| MergeSort.LowerInsertingIsSorting | samples/testserver/inc/uthash/utlist.h:656-683 | that is the stable sort of the elements themselves if and only if every class of equals reads the same backwards |
| MergeSort.LowerInsertingTurnsEquals | samples/testserver/inc/uthash/utlist.h:656-683 | two different elements that compare equal come out in reverse |
| LinkSort.MergeRuns | samples/testserver/inc/uthash/uthash.h:891-943 | the inner loop links the merge of two runs behind the tail, with at most one comparison per element taken |
| LinkSort.SortPass | samples/testserver/inc/uthash/utlist.h:190-229 | one pass merges all pairs of runs and restores the shape of the list, from the old head and the run size alone |
| LinkSort.SortLinks | samples/testserver/inc/uthash/utlist.h:108-309 | sorting in place, for all four shapes: the nodes are linked in the order of the sort, head and tail are right, and cmp is called at most (n-1)*ceil(log2 n) times |
| HashTables.Table.Sort | samples/testserver/inc/uthash/uthash.h:877-959 | the application order becomes its stable sort; buckets and chains are untouched; the whole integrity of the table is kept |
| HashTables.Table.MakeTable | samples/testserver/inc/uthash/uthash.h:178-198 | a new table indexes nothing, in 32 empty buckets, with all counters at their start and a filter that knows no hash value |
| HashTables.Table.Add | samples/testserver/inc/uthash/uthash.h:315-336 | an addition appends to the order and keeps the integrity of both linked structures, the counters, the filter and the load bound; the buckets are doubled if and only if expansion is not inhibited and the chain that gets the item then has 10*(expand_mult+1) items, and otherwise one bucket has one item more and nothing else changes; the first item makes a table of 32 buckets with that item; the filter learns the hash value |
| HashTables.Table.AddInOrder | samples/testserver/inc/uthash/uthash.h:267-300 | a sorted addition puts the node before the first one that is greater; buckets, counters and filter change as in an addition at the end, with the same threshold |
| HashTables.Table.Delete | samples/testserver/inc/uthash/uthash.h:371-398 | a deletion takes the node out of the order and of its chain, wherever it is, the tail included; of the counters only num_items changes, by one, of the buckets only that of the node, by one item, its multiplier stays, and so do the expansion counters and the filter |
| HashTables.Table.Find | samples/testserver/inc/uthash/uthash.h:123-133 | finds a node with the key if and only if there is one; until expansion is inhibited it probes at most 10*(expand_mult+1) nodes, and none when the filter does not know the hash value |
| HashTables.FindInBucket | samples/testserver/inc/uthash/uthash.h:740-759 | the search of one chain: the node found is the first with the key and hash value, counted by the probes, and null means that no node of the chain has them |
| HashTables.WhereKeyIs | samples/testserver/inc/uthash/uthash.h:351-354 | a key that is not in the chain of its hash value is in no chain |
| HashTables.Table.Replace | samples/testserver/inc/uthash/uthash.h:210-218 | takes out a node with the same key, if and only if there is one, and appends the new one; buckets and counters change as by that deletion and that addition |
| HashTables.Table.ReplaceInOrder | samples/testserver/inc/uthash/uthash.h:200-208 | the same, with the new node at its place in the order |
| HashTables.Table.Clear | samples/testserver/inc/uthash/uthash.h:1007-1016 | leaves an empty table |
| HashTables.Table.CountItems | samples/testserver/inc/uthash/uthash.h:1036-1037 | num_items is the length of the application order |
| HashTables.Table.EnterBucket | samples/testserver/inc/uthash/uthash.h:762-776 | the buckets are doubled if and only if expansion is not inhibited and the chain that gets the item then has 10*(expand_mult+1) items, with every chain split over two buckets; otherwise the bucket has one item more, the new one at its head, and no other bucket, chain or counter changes |
| HashTables.ThresholdOfExpansion | samples/testserver/inc/uthash/uthash.h:771-775 | the threshold in figures: ten items for each unit of the multiplier and ten more, whatever the statistics of the bucket |
| HashTables.Table.Leave | samples/testserver/inc/uthash/uthash.h:779-792 | the node leaves its chain, which keeps its order; its bucket has one item less and the same multiplier; num_items falls by one; nothing else changes |
| HashTables.InhibitedAfterTwo | samples/testserver/inc/uthash/uthash.h:863-867 | expansion is inhibited if and only if two doublings in a row left more than half of the items beyond the ideal chain length |
| HashTables.IdealIsLeast | samples/testserver/inc/uthash/uthash.h:836-850 | the ideal chain length is the least at which the new buckets have room for all items, and no item is nonideal if and only if no chain is longer |
| HashTables.Table.ExpandBuckets | samples/testserver/inc/uthash/uthash.h:823-870 | the ideal chain length is ceil(items / new buckets), the nonideal items are those beyond it, an expansion is ineffective when they are more than half, and the second one in a row inhibits expansion; the load bound holds again; every node goes to bucket b or b + num_buckets; the order is untouched |
| HashTables.FilterLetsThrough | samples/testserver/inc/uthash/uthash.h:161-168 | the Bloom filter never rejects the key of a node that is present |
| HashTables.FilterIsExact | samples/testserver/inc/uthash/uthash.h:167-168 | the test passes a hash value if and only if one was added that agrees with it in the lowest nbits bits |
| HashTables.Table.EnterFilter | samples/testserver/inc/uthash/uthash.h:161-165 | the filter has exactly the bits of the hash values added |
| Bloom.Add | samples/testserver/inc/uthash/uthash.h:161-165 | sets the one bit of the hash value and no other, in its byte, bit and value as the macro computes them |
| Bloom.BitOf | samples/testserver/inc/uthash/uthash.h:143-168 | the masked hash value is its remainder by 2^nbits, so inside the bit vector |
| HashChains.AddToBucket | samples/testserver/inc/uthash/uthash.h:762-776 | the node becomes the head of its chain; all other chains stay as they are |
| HashChains.DelInBucket | samples/testserver/inc/uthash/uthash.h:779-792 | the node leaves its chain, from the head, the middle or the end; all other chains stay as they are |
| HashChains.Redistribute | samples/testserver/inc/uthash/uthash.h:823-862 | the two loops over the old buckets put every node into the chain of its slot among twice as many, and the multipliers and the excess agree with the new counts |
| HashChains.ExpansionSplits | samples/testserver/inc/uthash/uthash.h:840-859 | a node of old bucket b is in new bucket b or in b + num_buckets |
| HashChains.ChainsAreDisjoint | samples/testserver/inc/uthash/uthash.h:428-475 | no node is in two chains |
| HashOrder.Append | samples/testserver/inc/uthash/uthash.h:234-240 | appending through the cached tail keeps both directions of the order |
| HashOrder.FirstGreater | samples/testserver/inc/uthash/uthash.h:242-249 | stops at the first node greater than the new one, or at the end |
| HashOrder.InsertInOrder | samples/testserver/inc/uthash/uthash.h:267-300 | links the node in at its place, and gives the new head and tail |
| HashOrder.Remove | samples/testserver/inc/uthash/uthash.h:371-395 | bypasses the node in both directions, and gives the new head and tail |
| HashBuckets.LoadBound | samples/testserver/inc/uthash/uthash.h:762-776 | the invariant of additions and deletions bounds the items by 19 per bucket, every chain by its threshold, and the multipliers by the buckets |
| HashBuckets.AdditionKeepsLoad | samples/testserver/inc/uthash/uthash.h:762-776 | an addition that does not reach the threshold keeps the invariant |
| HashBuckets.DeletionKeepsLoad | samples/testserver/inc/uthash/uthash.h:779-792 | a deletion keeps it |
| HashBuckets.ExpansionRestoresLoad | samples/testserver/inc/uthash/uthash.h:823-870 | an expansion whose ideal chain length is at most 10 establishes it again |
| HashBuckets.IdealIsSmall | samples/testserver/inc/uthash/uthash.h:836-838 | every expansion that an addition triggers computes an ideal chain length between 1 and 10, so its divisions are safe |
| HashClients.LoadOfTable | samples/testserver/inc/uthash/uthash.h:762-776 | the load bound, of every table in which expansion is not inhibited |
| HashClients.IndexAgreesWithOrder | samples/testserver/inc/uthash/uthash.h:428-475 | a node is in chain b if and only if it is in the application order and its hash value masks to b |
| HashClients.Users.FindUser | samples/testserver/uthash_sample.c:26-31 | lookup in the finite map |
| HashClients.Users.AddUser | samples/testserver/uthash_sample.c:14-24 | update of the finite map; a new user is listed last, a known one keeps its place |
| HashClients.Users.DeleteUser | samples/testserver/uthash_sample.c:33-36 | removal from the finite map; the others keep their order |
| HashClients.Users.DeleteAll | samples/testserver/uthash_sample.c:38-45 | empties the map while iterating over it |
| HashClients.Users.SortBy | samples/testserver/inc/uthash/uthash.h:876-877 | for a comparator that is a total preorder the listing becomes sorted, stably, and the map stays what it is |
| HashClients.StrCmpIsLexicographic | samples/testserver/uthash_sample.c:55-57 | strcmp gives 0 for equal names only, and a negative number if and only if the names agree up to a place where the first one ends or has the smaller character |
| HashClients.Users.SortByName | samples/testserver/uthash_sample.c:55-65 | the listing becomes sorted by name, no name before an alphabetically smaller one, users of the same name keeping their order |
| Arith.AndMask | samples/testserver/inc/uthash/uthash.h:351-354 | masking with 2^k - 1 is the remainder by 2^k |
| Arith.SlotDoubles | samples/testserver/inc/uthash/uthash.h:840-848 | doubling the buckets keeps a slot or moves it by the old number of buckets |
| Arith.CeilShiftIsCeil | samples/testserver/inc/uthash/uthash.h:836-838 | shift and mask divide by a power of two and round up |
| UtLists.LowerBoundElem | samples/testserver/inc/uthash/utlist.h:672-683 | gives the last node before the first one that is not less, or null |
| UtLists.WalkTo | samples/testserver/inc/uthash/utlist.h:395-397 | the walk stops at the node in front of the first occurrence of the target behind the head, or at the last node |
| UtLists.LList.Prepend | samples/testserver/inc/uthash/utlist.h:317-321 | the node is first |
| UtLists.LList.Append | samples/testserver/inc/uthash/utlist.h:341-352 | the node is last, and the list ends behind it |
| UtLists.LList.AppendElem | samples/testserver/inc/uthash/utlist.h:494-504 | the node is behind the given one, or first |
| UtLists.LList.Delete | samples/testserver/inc/uthash/utlist.h:388-402 | the node is gone; if it was not in the list, nothing has changed |
| UtLists.LList.Concat | samples/testserver/inc/uthash/utlist.h:326-336 | the second list follows the first |
| UtLists.LList.InsertInOrder | samples/testserver/inc/uthash/utlist.h:357-367 | the node is before the first one that is not less |
| UtLists.LList.Sort | samples/testserver/inc/uthash/utlist.h:111-169 | the stable sort, in a list that ends in null, in n log n comparisons |
| UtLists.DList.Prepend | samples/testserver/inc/uthash/utlist.h:624-634 | the node is first; head->prev is still the tail |
| UtLists.DList.Append | samples/testserver/inc/uthash/utlist.h:639-651 | the node is last, and head->prev leads to it |
| UtLists.DList.AppendElem | samples/testserver/inc/uthash/utlist.h:803-819 | the node is behind the given one, or first |
| UtLists.DList.Delete | samples/testserver/inc/uthash/utlist.h:706-723 | exactly that node is gone, be it only, first, last or in the middle |
| UtLists.DList.ReplaceElem | samples/testserver/inc/uthash/utlist.h:753-777 | the new node has the place of the old one |
| UtLists.DList.Concat | samples/testserver/inc/uthash/utlist.h:688-701 | the second list follows the first |
| UtLists.DList.InsertInOrder | samples/testserver/inc/uthash/utlist.h:656-667 | the node is before the first one that is not less |
| UtLists.DList.Sort | samples/testserver/inc/uthash/utlist.h:175-233 | the stable sort, in a well-formed list, in n log n comparisons |
| UtLists.CList.Append | samples/testserver/inc/uthash/utlist.h:863-875 | the node is last in the ring |
| UtLists.CList.Prepend | samples/testserver/inc/uthash/utlist.h:880-892 | the node is first in the ring |
| UtLists.CList.AppendElem | samples/testserver/inc/uthash/utlist.h:1026-1038 | the node is behind the given one, or first |
| UtLists.CList.Delete | samples/testserver/inc/uthash/utlist.h:929-938 | exactly that node is gone from the ring |
| UtLists.CList.ReplaceElem | samples/testserver/inc/uthash/utlist.h:983-1001 | the new node has the place of the old one |
| UtLists.CList.InsertInOrder | samples/testserver/inc/uthash/utlist.h:897-924 | the node is before the first one that is not less |
| UtLists.CList.Sort | samples/testserver/inc/uthash/utlist.h:238-309 | the stable sort, in a closed ring again after every pass |
| Kmp.BuildTable | samples/testserver/inc/uthash/utstring.h:162-198 | entry i < n is the longest border of the first i symbols that the next symbol does not extend, or -1; entry n is the longest proper border; at most n fallbacks |
| Kmp.TableIsUnique | samples/testserver/inc/uthash/utstring.h:162-198 | that determines the table |
| Kmp.FallbackSkipsNoMatch | samples/testserver/inc/uthash/utstring.h:254-260 | falling back along the table skips no match |
| Kmp.TwoFallbacks | samples/testserver/inc/uthash/utstring.h:185-192 | along the table, an entry and the entry it leads to are together less than the length of the prefix: what storing the entry of equal symbols is for |
| Kmp.FallsAreFew | samples/testserver/inc/uthash/utstring.h:254-260 | r fallbacks in a row need a prefix of at least Fib(r + 1) - 1 symbols |
| Kmp.Find | samples/testserver/inc/uthash/utstring.h:242-271 | the least match position, or -1 if and only if there is none, the early exit included, in at most two symbol comparisons per symbol of the haystack, with logarithmically many fallbacks at any one symbol: their largest number d has Fib(d + 1) <= n |
| Kmp.BuildTableR | samples/testserver/inc/uthash/utstring.h:202-238 | the right-to-left table is, renumbered from the right, the table of the reversed needle; at most n fallbacks |
| Kmp.FindR | samples/testserver/inc/uthash/utstring.h:275-305 | the greatest match position, or -1 if and only if there is none, with the same bounds on comparisons and fallbacks |
| Kmp.ReversedMatch | samples/testserver/inc/uthash/utstring.h:275-305 | a match read backwards is a match of the reversed needle in the reversed haystack |
| UtStrings.UtString.Reserve | samples/testserver/inc/uthash/utstring.h:52-61 | room for the amount asked for, with contents and terminator kept |
| UtStrings.UtString.Bincpy | samples/testserver/inc/uthash/utstring.h:104-110 | appends the bytes and a terminator behind them |
| UtStrings.UtString.Concat | samples/testserver/inc/uthash/utstring.h:112-118 | appends another string, or the string itself |
| UtStrings.UtString.Clear | samples/testserver/inc/uthash/utstring.h:98-102 | leaves a terminated empty string |
| UtStrings.UtString.Find | samples/testserver/inc/uthash/utstring.h:309-351 | the least match position from the start position on, or -1 if and only if there is none; negative positions count from the end |
| UtStrings.UtString.FindR | samples/testserver/inc/uthash/utstring.h:355-393 | the greatest position of a match that ends at the start position or before |
| Mirror.MaskedDifference | samples/testserver/plugins/protocol_lws_mirror.c:107-108 | the 32-bit masked difference of head and tail is their distance around the ring |
| Mirror.StepKeepsInvariant | samples/testserver/plugins/protocol_lws_mirror.c:66-149 | every join, leave, post and write keeps: the ring has the last 512 messages, tails count what was sent, sessions that were not lapped were sent a prefix of what is due, throttled ones are 498 or more behind |
| Mirror.WhoIsConnected | samples/testserver/plugins/protocol_lws_mirror.c:66-70 | a step connects the session that joins, disconnects the one that leaves, and no other |
| Mirror.WhoIsThrottled | samples/testserver/plugins/protocol_lws_mirror.c:107-140 | reception is switched off exactly by a post of the session itself that is refused, at 511 messages pending, or becomes the 510th; it is switched on exactly by a write that leaves 497 messages pending for the session written, for everybody, or by joining anew |
| Mirror.WhatIsPending | samples/testserver/plugins/protocol_lws_mirror.c:89-136 | an accepted post is appended to what is pending for everybody, except that it empties the queue of those with 511 pending; a write sends the first pending message; no other step sends or changes anything |
| Mirror.Delivery | samples/testserver/plugins/protocol_lws_mirror.c:89-117 | after every run, what a session was sent and what is pending for it are the messages accepted since it joined, in order, if and only if fewer than 512 are unsent |
| Mirror.WhoIsLapped | samples/testserver/plugins/protocol_lws_mirror.c:119-136 | an accepted post laps exactly the sessions with lag 511, never the one that posts |
| Mirror.LappedForGood | samples/testserver/plugins/protocol_lws_mirror.c:89-105 | a lapped session never catches up |
| Mirror.ThrottledSessionsDrain | samples/testserver/plugins/protocol_lws_mirror.c:102-110 | a throttled session that was not lapped has 498 or more messages pending, and writing all but 497 of them allows reception for everybody |
| Mirror.ThrottledBacklog | samples/testserver/plugins/protocol_lws_mirror.c:102-110 | over every run, a throttled session has 498 or more messages pending if and only if its unsent messages modulo 512 are as many; below 1010 unsent messages, if and only if it was not lapped |
| Mirror.StuckByPost | samples/testserver/plugins/protocol_lws_mirror.c:120-144 | the one step that leaves a throttled session with less than that is an accepted post while its own lag is 511 |
| Mirror.LappedSessionIsStuck | samples/testserver/plugins/protocol_lws_mirror.c:119-144 | a run in which a lapped session stays throttled with nothing pending |
| Mirror.DrainTo | samples/testserver/plugins/protocol_lws_mirror.c:89-117 | k writes send exactly the first k pending messages |
| Mirror.Vhost.Established | samples/testserver/plugins/protocol_lws_mirror.c:66-70 | takes the join step |
| Mirror.Vhost.Receive | samples/testserver/plugins/protocol_lws_mirror.c:119-144 | takes the post step: refusal, storing, throttling |
| Mirror.Vhost.Writeable | samples/testserver/plugins/protocol_lws_mirror.c:89-117 | takes as many write steps as succeed, in the order of the backlog, and stops exactly at its end, at a failure, or after a write that choked the pipe |
| Status.WriteFrame | samples/testserver/plugins/protocol_lws_status.c:129-191 | a listed peer is on the live list at the time: a session that left is not looked into |
| Status.StepKeepsInvariant | samples/testserver/plugins/protocol_lws_status.c:109-226 | every join, leave and write keeps the phase of each walk in agreement with the frames it has sent |
| Status.StepAt | samples/testserver/plugins/protocol_lws_status.c:109-226 | a join puts the session at the head of the list and counts it, a leave takes it out and does not count, and either triggers everybody on the list; a write changes only the session that writes |
| Status.JoinsAreCounted | samples/testserver/plugins/protocol_lws_status.c:117-139 | over every run, the number in the header is that of all joins so far, whoever has left |
| Status.WriteItem | samples/testserver/plugins/protocol_lws_status.c:143-173 | a live next session is the one listed, and the walk goes on to the one behind it on the list, or to its end |
| Status.WriteGone | samples/testserver/plugins/protocol_lws_status.c:148-166 | a next session that has left is not listed; the walk goes to its end and is marked for repetition |
| Status.Fragmentation | samples/testserver/plugins/protocol_lws_status.c:129-201 | over every run the frames of a session are messages as section 5.4 of RFC 6455 wants them, and the last one is complete if and only if the walk rests or is about to begin |
| Status.Reachable | samples/testserver/plugins/protocol_lws_status.c:129-201 | every message, disturbed or not, is a header, items of which exactly the first has no comma, and a footer; an item without a peer comes last |
| Status.ListHasNext | samples/testserver/plugins/protocol_lws_status.c:143-146 | a walk in its list phase has a next session, so the test for none never succeeds; if that session has left, the walk will be repeated |
| Status.UndisturbedWalk | samples/testserver/plugins/protocol_lws_status.c:129-191 | while nobody joins or leaves, the next n + 2 frames of a session about to begin are header, each of the n live sessions once and in order, footer, whatever the other sessions write in between |
| Status.ChangeForcesFullWalk | samples/testserver/plugins/protocol_lws_status.c:62-79 | after a join or leave that only writes follow, every live session writes at most n + 1 frames more of what it is at, and then the whole new list of n sessions |
| Status.MarkedStep | samples/testserver/plugins/protocol_lws_status.c:62-79 | a session becomes marked exactly when somebody joins or leaves while it is walking; finding its next session gone adds nothing to that |
| Status.MarkedIfDisturbed | samples/testserver/plugins/protocol_lws_status.c:62-79 | over every run, a session is marked if and only if since it joined somebody has joined or left while it was walking |
| Status.RestsIffUnchanged | samples/testserver/plugins/protocol_lws_status.c:178-188 | if nobody joins or leaves any more, a session's walk comes to rest if and only if that has not happened |
| Status.NeverRests | samples/testserver/plugins/protocol_lws_status.c:109-127 | after two sessions have joined, the first one never rests while it lives, whatever happens later |
| Status.DanglingComma | samples/testserver/plugins/protocol_lws_status.c:148-166 | a comma is written with no item behind it exactly when the next session has left and items were written before |
| Status.DanglingCommaRun | samples/testserver/plugins/protocol_lws_status.c:148-166 | a run with such a frame |
| Status.ChangedForGood | samples/testserver/plugins/protocol_lws_status.c:182-188 | once that has happened the session never rests again |
| Status.Vhd.TriggerResend | samples/testserver/plugins/protocol_lws_status.c:62-79 | the loop begins a walk at every resting session and marks all others |
| Status.Vhd.Established | samples/testserver/plugins/protocol_lws_status.c:109-127 | takes the join step on the linked list |
| Status.Vhd.IsLive | samples/testserver/plugins/protocol_lws_status.c:152-160 | the search finds a pointer if and only if it is on the list |
| Status.Vhd.Writeable | samples/testserver/plugins/protocol_lws_status.c:129-201 | takes the write step and gives its frame |
| Status.Vhd.Closed | samples/testserver/plugins/protocol_lws_status.c:208-226 | takes the leave step: unlinks the session, wherever it is, and triggers |
| FileTransfer.StepKeepsInvariant | samples/testserver/test-server-file.c:37-220 | every step of either party keeps the stage of the protocol, and that what the client wrote and what is under way are what the server has read |
| FileTransfer.Safety | samples/testserver/test-server-file.c:80-109 | over every run and every splitting of frames: no frame arrives in a state where it does not belong, the output is a prefix of the file, and bytes is its length as an int |
| FileTransfer.WhatIsUnexpected | samples/testserver/test-server-file.c:80-106 | what counts as a frame that does not belong: for the client anything but a header as the reply and data after the start, for the server anything after the start but 0x98AC000F |
| FileTransfer.FramesUntilDone | samples/testserver/test-server-file.c:164-178 | the server is done if and only if it has written floor(len / 10000) + 1 data frames |
| FileTransfer.DoneAndDelivered | samples/testserver/test-server-file.c:92-96 | when the server is done, the client has the whole file if and only if nothing but empty frames is under way |
| FileTransfer.HowItEnds | samples/testserver/test-server-file.c:57-59 | the connection is closed if and only if the client, confirmed, could not open its file; the client exits if and only if its counter has reached the fixed number |
| FileTransfer.Completes | samples/testserver/test-server-file.c:37-220 | from a reachable state with the connection up the transfer can be completed, or the client can leave at the fixed number of bytes, if and only if the server has not failed to open its file |
| FileTransfer.ErrorIfServerOpenFails | samples/testserver/test-server-file.c:201-209 | over every run, the server is in its error state if and only if its fopen failed while it was waiting for the start |
| FileTransfer.ErrorHangs | samples/testserver/test-server-file.c:201-218 | from then on no event changes anything: the connection is up and the client waits for data that never comes |
| FileTransfer.ServerHangs | samples/testserver/test-server-file.c:201-209 | a run that ends so |
| FileTransfer.AsIntSum | samples/testserver/test-server-file.c:93-93 | counting in a 32-bit int agrees with counting and then wrapping |
| FileTransfer.ClientSends | samples/testserver/test-server-file.c:37-70 | the client sends its request when connected, the start when confirmed and its file is open, and nothing else; it closes when that file cannot be opened |
| FileTransfer.ServerVerdict | samples/testserver/test-server-file.c:185-218 | the server rejects a first header if and only if its upper half is not 0x98AC or its size is above 256 MB; it fails in the wait for the start if and only if fopen does; of other frames it accepts only 0x98AC000F |
| FileTransfer.ClientVerdict | samples/testserver/test-server-file.c:80-109 | a reply to the request closes the connection if and only if it is not 0x98AC0002; data leads to the exit if and only if the counter comes to 83762340 |
| FileTransfer.AnyClient | samples/testserver/test-server-file.c:152-218 | whatever frames a client sends and when: a server whose first header was not acceptable is in its error state and never writes; otherwise it has written its confirmation and then a prefix of the file in chunks of 10000, of which only the last of all is shorter |
| FileTransfer.FileServer.Writeable | samples/testserver/test-server-file.c:152-183 | takes the server's write step and closes if and only if there is a frame and lws_write reports less than its length; the state is then as before, and the chunk has been read |
| FileTransfer.FileServer.Receive | samples/testserver/test-server-file.c:185-218 | takes the server's read step, with the checks of magic and size and a failing fopen |
| FileTransfer.FileClient.Writeable | samples/testserver/test-server-file.c:37-79 | takes the client's write step, also after a negative result of the write; closes on a short one |
| FileTransfer.FileClient.Receive | samples/testserver/test-server-file.c:80-109 | takes the client's read step |
| RingBuffers.RingBuffer.PushBack | samples/testserver/inc/uthash/utringbuffer.h:84-89 | the buffer holds the last n elements pushed; exactly the element that drops out is destroyed, so that destroyed and live elements are those pushed, in order |
| RingBuffers.RingBuffer.Clear | samples/testserver/inc/uthash/utringbuffer.h:50-66 | destroys the elements that are left, oldest first, each once |
| RingBuffers.RingBuffer.PointersAndPositions | samples/testserver/inc/uthash/utringbuffer.h:95-101 | eltptr and eltidx are inverse to each other, across the wrap-around |
| RingBuffers.RingBuffer.Traversal | samples/testserver/inc/uthash/utringbuffer.h:103-106 | next from null visits the elements oldest first, prev newest first, and both end in null after the last |
| UtArrays.GrownIsLeast | samples/testserver/inc/uthash/utarray.h:90-98 | the loop of reserve stops at the least 8*2^k that is enough and not below the present capacity |
| UtArrays.PushesMoveFew | samples/testserver/inc/uthash/utarray.h:100-104 | k pushes to an empty array relocate fewer than 2k elements in all |
| UtArrays.InsertedAtOnce | samples/testserver/inc/uthash/utarray.h:135-175 | an insertion beyond the end reserves twice, for the padding and for the elements, and ends at the capacity that one reservation would give |
| UtArrays.UtArray.Reserve | samples/testserver/inc/uthash/utarray.h:90-98 | room for the amount asked for; the contents move with the block |
| UtArrays.UtArray.PushBack | samples/testserver/inc/uthash/utarray.h:100-104 | appends, with the sizes and relocations accounted for |
| UtArrays.UtArray.PopBack | samples/testserver/inc/uthash/utarray.h:106-109 | drops the last element and destroys that one |
| UtArrays.UtArray.ExtendBack | samples/testserver/inc/uthash/utarray.h:111-116 | appends an initialized element |
| UtArrays.UtArray.Insert | samples/testserver/inc/uthash/utarray.h:123-133 | splices one element in, behind initialized ones if the position is beyond the end; those and the element are what is constructed; sizes and relocations are accounted for |
| UtArrays.UtArray.InsertArray | samples/testserver/inc/uthash/utarray.h:135-154 | splices another array in likewise; an empty one changes nothing; the array itself gives the copies that the ascending loop makes of its own copies, at every position |
| UtArrays.UtArray.Resize | samples/testserver/inc/uthash/utarray.h:156-175 | truncates and destroys the elements cut off, in order, or pads and initializes |
| UtArrays.UtArray.Concat | samples/testserver/inc/uthash/utarray.h:177-179 | concatenation, of the array with itself too |
| UtArrays.UtArray.Erase | samples/testserver/inc/uthash/utarray.h:181-193 | cuts a slice out and destroys the elements of that slice, in order |
| UtArrays.UtArray.Clear | samples/testserver/inc/uthash/utarray.h:200-210 | destroys all elements, in order; as in every operation, the elements constructed are those destroyed and those in the array, each as often |
| UtArrays.SelfInsertIsSplice | samples/testserver/inc/uthash/utarray.h:135-154 | inserting an array into itself gives what inserting a copy of it would give if and only if the position is in the array and is its beginning, or the elements repeat from there on |
| UtArrays.SelfInsertFails | samples/testserver/inc/uthash/utarray.h:144-148 | two different elements inserted between themselves |
| UtArrays.EraseUndoesInsert | samples/testserver/inc/uthash/utarray.h:181-193 | erasing an inserted array gives the old contents, padded up to the position |
| UtArrays.InsertOneByOne | samples/testserver/inc/uthash/utarray.h:135-154 | inserting an array is inserting its elements one behind the other |
| PollTables.SwapRemoved | samples/testserver/test-server-http.c:735-742 | moving the last entry into the gap removes exactly that descriptor and keeps fd_lookup inverse to the table, also when the removed entry is the last one |
| PollTables.FdAt | samples/testserver/test-server-http.c:729-732 | fd_lookup leads from the descriptor of each entry to that entry |
| PollTables.ListedOnce | samples/testserver/test-server-http.c:729-732 | no descriptor is listed twice |
| PollTables.PollTable.Add | samples/testserver/test-server-http.c:722-733 | adds the descriptor to the map, at the end of the array, or refuses, whatever it is, if and only if the table is full |
| PollTables.NeverRefused | samples/testserver/test-server-http.c:724-727 | a table that lacks a descriptor which fits fd_lookup is not full, so such descriptors are never refused |
| PollTables.PollTable.Delete | samples/testserver/test-server-http.c:735-742 | removes the descriptor from the map, the only one included; the last entry takes its place |
| PollTables.PollTable.ChangeMode | samples/testserver/test-server-http.c:744-746 | changes the events of that descriptor alone |

## Left out

- `LL_PREPEND_ELEM`, `LL_REPLACE_ELEM`, `DL_PREPEND_ELEM`, `CDL_PREPEND_ELEM`, and the search, count and iteration macros of utlist.h: nothing new beside the operations modelled.
- The variants of the macros for compilers without decltype.
- `HASH_SELECT`: it needs an empty destination and does not advance the destination's tail, so it does not leave a table to which can be added.
- The bit mixing of the hash functions: the hash function is any function of the key, and its value any natural number.
- `HASH_ADD_KEYPTR` with keys outside the structure: the key is a constant of the node, and does not change while the node is in a table.
- A uthash without `HASH_BLOOM`: the table always has the filter; without it every lookup goes to the chains, as after a positive test.
- HashClients.Users.SortBy: a comparator is a function of the two nodes and not of the heap; `SortByName` shows how one that compares names is made from the names at the time of the call. Correct sorting assumes a total preorder, which subtracting int ids is only as long as it does not overflow.
- MergeSort.LowerInsertingIsSortingBackwards: assumes in addition that a comparator gives opposite signs for the two orders of its arguments, because inserting before equals asks for the sign of `cmp(list element, new element)` only.
- MergeSort.LowerInsertingIsSorting: assumes the same.
- Failing allocations, and sizes that exceed the machine's integers.
- HashTables.Table.Sort: the number of comparisons is bounded by (n-1)*ceil(log2 n), not given exactly.
- UtStrings.UtString.Find: the start position must not be before the beginning of the string; the code does not check it.
- UtStrings.UtString.FindR: the start position must be inside the string; the code does not check it.
- `utstring_printf`, which only formats.
- Mirror.Vhost.Writeable: a partial write counts as a write, as in the code, and the connection's end after a failed one is the caller's; the payloads' memory and the smaller ring of the ESP8266 build are not modelled.
- The tail of a mirror session and the reception flag the library keeps for it are entries of maps of the per-vhost object, not objects of their own.
- Status.WriteFrame: the text of the frames is not modelled, only the header, the peer listed, the comma and the footer; `count_live_pss` counts joins.
- Status.Vhd.Writeable: a failed write is followed by the closing of the session and is not an event of its own.
- FileTransfer.Safety: channels are lossless and first-in first-out, and headers arrive whole. A header in place of data, or data in place of a header, counts as a frame that does not belong, although the code would read it.
- FileTransfer.AnyClient: a data frame in place of the request is passed over; the code would read its first bytes as a header.
- The file name and checksum of the request, which are copied and not used.
- RingBuffers.RingBuffer.PushBack: needs n > 0; with n = 0 the code writes through a null pointer.
- Element callbacks of utringbuffer.h and utarray.h may be absent in the code; the model has them, and copies elements as values.
- UtArrays.UtArray.InsertArray: models the loop that calls the copy function; without one the code uses memcpy, whose result is not defined when an array is inserted into its own middle.
- `utarray_sort` and `utarray_find`, which call qsort and bsearch.
- PollTables.PollTable.Delete: the descriptor must be in the table; the library sees to that.
- PollTables.PollTable.Add: the descriptor must not be in the table, which the library sees to, and must fit fd_lookup unless the table is full; the code checks neither.
- Sockets, TLS, option parsing, logging, timing and the other programs of the repository: foreign calls and plumbing.
