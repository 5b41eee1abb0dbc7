# Containers, documents and codecs of the Stockminer server

A model of the parts of the server that hold its state and decode its traffic, with proofs of what they
promise. Code that works in place is modelled in place: list nodes, hash buckets, JSON rings, string buffers
and hash contexts are heap objects and arrays, and every method's contract gives its new state as a function
of the old one.

| file | models |
|---|---|
| `UtString.dfy` | Knuth-Morris-Pratt search in both directions, with the optimised failure table (`utstring.h`) |
| `StableSort.dfy`, `UtListSort.dfy` | bottom-up merge sort on sequences, and the three list sorts that carry it out on linked nodes (`utlist.h`) |
| `MachineInts.dfy`, `Sequences.dfy` | machine widths, and edits and occurrences in sequences, for all the others |
| `UtListEdit.dfy` | the edits of doubly linked and circular lists, and ordered insertion (`utlist.h`) |
| `UtHashSpec.dfy`, `UtHash.dfy`, `UtHashTable.dfy` | the chained hash table with its insertion-order list, doubling buckets and in-place sort (`uthash.h`) |
| `YyMut.dfy` | mutable JSON arrays and objects: rings addressed by their last element or last key (`yyjson.h`) |
| `Json.dfy`, `YyTape.dfy` | JSON trees, paths into them, and immutable documents as one array of cells (`yyjson.h`) |
| `QCacheSpec.dfy`, `QCacheRuns.dfy`, `QCacheFrames.dfy`, `QCache.dfy` | the workspace document: its shape, its operations, and what holds over every run (`qcache.c`) |
| `QCacheCuts.dfy`, `QCacheEffects.dfy` | what each operation leaves in its place, and what removing an indicator does to a text |
| `Bits.dfy`, `Words.dfy`, `Sha1.dfy`, `Md5.dfy` | streaming SHA-1 and MD5 against RFC 3174 and RFC 1321 on whole messages |
| `WordLaws.dfy`, `Sha1Laws.dfy`, `Sha1Vector.dfy`, `Md5Vector.dfy` | what the operations on words compute, and one digest of each standard, step by step |
| `Base64.dfy` | the encoding of RFC 4648 |
| `WebSocket.dfy` | client frames of RFC 6455 sent and received (`websocket.c`) |
| `Calendar.dfy` | leap years, weekdays, days of the year (`strptime.cxx`) |
| `CString.dfy` | the in-place splitter behind the requests' arity check, and number formatting (`lib.c`) |

## Where the code falls short of its purpose

Some promises hold only under a condition. The model keeps the code as it is and proves the condition:

- `utstring_find` compares positions with the haystack length cast to `int`: right exactly below 2^31 bytes
  (`UtString.SearchRightIffBelow2G`). `utstring_findR` casts the needle length instead, and leaves characters of
  longer needles uncompared: right exactly for needles below 2^31 bytes (`UtString.SearchRightIffBelow2GR`), and of
  longer ones a place is reported that has their first characters (`UtString.RunBegins`).
- `base64_encoded_len` masks with a 32-bit constant: right exactly when the result fits 32 bits
  (`Base64Spec.EncodedLenIs`), and `base64_encode` refuses exactly the other inputs.
- `extract_frames` moves one byte too little behind a frame with an extended length: a stream is read right
  exactly when only the last frame looked at has more than 125 bytes (`FrameSpec.ScanStream`).
- `websocket_recv` takes binary frames and pongs for texts and answers -1 to a ping (`WebSocket.Opcodes`).
- `md5_update` carries at most 1 into the second counter: right exactly when the first counter and the length
  add up to less than 2^33 (`Md5.LostNone`), and the padding is right exactly when the number of lost carries is
  a multiple of 2^29 (`Md5.PaddingRight`).
- `websocket_send` builds the frame in 1 MiB on the stack unless the payload alone is as long: payloads of 1048563
  to 1048575 bytes overrun it, all others below 2^31 - 13 bytes have room (`WebSocket.FitsIff`).
- `qcache_new_quadspace` writes the title into 16 bytes: it fits exactly for QSIDs between -9999 and 99999
  (`QCacheSpec.TitleFits`).
- `yyjson_mut_arr_remove_range` lets a range through whose end, start plus length, runs over 64 bits: exactly those
  that end within the array after the wrap-around (`YyMutArr.RemoveRange`).
- `qcache_chart_indicator_remove` cuts the first occurrence even inside the ticker, so two charts can end up with
  one ticker (`QCacheRuns.RemovalCanClash` is such a run): a run stays free of that exactly when every operation
  is clean (`QCacheRuns.RunStrict`), and one text keeps its ticker exactly when `QCacheRuns.CutKeepsBase` says. `QCacheCuts.CutsField` says what becomes
  of the fields in every case.
- `SHA1Input` reports success for the call in which the length counters run over; later calls report it.
- `cstring_itoa` returns one more than the number of digits and writes no NUL.

## Model

| member | source | states |
|---|---|---|
| MachineInts.ToInt32Is | src/external/utstring.h:263-270 | the cast to `int` is the one number from -2147483648 to 2147483647 that differs from the length by a multiple of 4294967296 |
| Borders.SkipIsSafe | src/external/utstring.h:251-280 | falling back in the failure table never skips an occurrence: between the old and the new start of the comparison the needle occurs nowhere |
| Borders.NextLongest | src/external/utstring.h:171-207 | the entry a mismatch falls back to is the longest border of the matched prefix that can still match, so every longer one is ruled out |
| Borders.EntryIsStrong | src/external/utstring.h:171-207 | the optimised ("strong") entry is right: a border whose next character equals the mismatching one is replaced by that border's own entry |
| Borders.OccursReversed | src/external/utstring.h:284-314 | a needle occurs in a text exactly where its mirror image occurs in the mirrored text |
| UtString.BuildTable | src/external/utstring.h:171-207 | fills the table of the needle: entry k is the longest border of the prefix k that is followed by another character, -1 if there is none; the inner loop falls back at most as often as the needle is long |
| UtString.BuildTableR | src/external/utstring.h:211-247 | the right-to-left table is the mirror image of the table of the reversed needle, with the same linear bound on the fallbacks |
| UtString.TableIsUnique | src/external/utstring.h:171-247 | a needle has only one such table, so what the two builders leave behind is determined |
| UtString.FindWithTable | src/external/utstring.h:251-280 | finds the leftmost occurrence among those that end by the haystack length cast to `int`, or -1; of a needle of 2^31 bytes or more it takes as many characters as its own cast length says, or one; at most one fallback per haystack character in all |
| UtString.FindWithTableR | src/external/utstring.h:284-314 | finds the rightmost occurrence, or -1, with the same linear bound; of a needle of 2^31 bytes or more the last characters are not compared: the answer, fixed by the needle's one table, is -1 or a place that begins like the needle, and the last place if that does |
| UtString.RunBegins | src/external/utstring.h:284-314 | also where characters are left uncompared, every fallback keeps the compared ones matched, so a place that is reported has the needle's first characters, as many as the cast length says |
| UtString.MirroredSearch | src/external/utstring.h:284-314 | the rightmost occurrence is the leftmost one of the mirrored texts, counted from the other end, in both directions |
| UtString.SearchRightIffBelow2G | src/external/utstring.h:263-270 | the casts to `int` are harmless for all texts of two lengths exactly when the haystack is shorter than 2^31 bytes or shorter than the needle |
| UtString.SearchRightIffBelow2GR | src/external/utstring.h:298-303 | from right to left exactly when the needle is shorter than 2^31 bytes or longer than the haystack |
| UtString.Str.Find | src/external/utstring.h:318-360 | one-time search from a start position, counted from the end when negative: the leftmost occurrence at or after it, -1 for the empty needle, and what the casts make of it beyond 2^31 bytes |
| UtString.Str.FindR | src/external/utstring.h:364-402 | one-time search backwards: the rightmost occurrence that ends at or before the start position, -1 for the empty needle, and for needles of 2^31 bytes and more what the cast makes of it |
| StableSort.MergeStable | src/external/utlist.h:139-159 | merging two sorted runs, the first run's element taken on ties, keeps the order of equivalent elements |
| StableSort.MergeSorted | src/external/utlist.h:139-159 | the merge of two sorted runs is sorted |
| StableSort.PassDoublesRuns | src/external/utlist.h:126-168 | one pass over sorted runs of length k leaves sorted runs of length 2k |
| StableSort.PassStable | src/external/utlist.h:126-168 | a whole pass keeps the order of equivalent elements |
| StableSort.StableSortUnique | src/external/utlist.h:113-311 | two stable sorts of one list under one total preorder are the same list, so the result does not depend on the algorithm |
| ListSort.WalkRun | src/external/utlist.h:131-137 | counts the first run's nodes and stops at the node after it, never past the list's end or round a circular list |
| ListSort.MergeLoop | src/external/utlist.h:139-159 | splices the two runs' nodes in place into the output in the order of the merge, leaving the rest of the list linked |
| ListSort.SortPass | src/external/utlist.h:126-168 | one pass over the linked nodes computes the pass on sequences and returns how many merges it made |
| ListSort.LLSort | src/external/utlist.h:113-171 | terminates with a stable sorted permutation of the nodes, singly linked and null-terminated |
| ListSort.DLSort | src/external/utlist.h:177-235 | the same for the doubly linked list: back links right, head->prev the tail |
| ListSort.CDLSort | src/external/utlist.h:240-311 | the same for the circular list: last->next the head and head->prev the last node again |
| DoublyLinked.Prepend | src/external/utlist.h:626-636 | the doubly linked list, link invariant kept: the new node in front; its prev is the old head's prev (the tail) |
| DoublyLinked.Append | src/external/utlist.h:641-653 | the doubly linked list, link invariant kept: the new node at the end, head->prev moved to it |
| DoublyLinked.Concat | src/external/utlist.h:690-703 | the doubly linked list, link invariant kept: the two lists one after the other, the second one's tail as head->prev; either may be empty |
| DoublyLinked.Delete | src/external/utlist.h:708-725 | the doubly linked list, link invariant kept: exactly that node gone, for the only node, the head, the tail and a middle node |
| DoublyLinked.ReplaceElem | src/external/utlist.h:755-779 | the doubly linked list, link invariant kept: the new node in the old one's place, for head, tail and middle |
| DoublyLinked.PrependElem | src/external/utlist.h:784-801 | the doubly linked list, link invariant kept: the new node before the given one, at the end for none |
| DoublyLinked.AppendElem | src/external/utlist.h:805-822 | the doubly linked list, link invariant kept: the new node behind the given one, in front for none |
| DoublyLinked.FindLowerBound | src/external/utlist.h:674-685 | the doubly linked list, link invariant kept: the node before the first one not less than the argument, null when that is the head or the list is empty |
| DoublyLinked.InsertInorder | src/external/utlist.h:658-669 | the doubly linked list, link invariant kept: the new node goes before the first one not less than it, and a sorted list stays sorted |
| Circular.Append | src/external/utlist.h:865-877 | the circular list, link invariant kept: the new node at the end |
| Circular.Prepend | src/external/utlist.h:882-894 | the circular list, link invariant kept: the new node in front, head moved to it |
| Circular.Delete | src/external/utlist.h:931-940 | the circular list, link invariant kept: exactly that node gone, the ring closed again, head moved on if it was the head |
| Circular.ReplaceElem | src/external/utlist.h:985-1003 | the circular list, link invariant kept: the new node in the old one's place, also as the only node |
| Circular.PrependElem | src/external/utlist.h:1008-1023 | the circular list, link invariant kept: the new node before the given one, at the end for none |
| Circular.AppendElem | src/external/utlist.h:1028-1040 | the circular list, link invariant kept: the new node behind the given one, in front for none |
| Circular.FindLowerBound | src/external/utlist.h:915-926 | the circular list, link invariant kept: the node before the first one not less than the argument; the walk ends at the head again |
| Circular.InsertInorder | src/external/utlist.h:899-910 | the circular list, link invariant kept: the new node goes before the first one not less than it, and a sorted list stays sorted |
| ListOrder.InsertedSorted | src/external/utlist.h:658-669 | insertion at the lower bound keeps a sorted list sorted and puts the new element before all it is equivalent to |
| Masks.AndMask | src/external/uthash.h:433-436 | masking with a power of two minus one is the remainder, so the bucket index is the hash modulo the bucket count |
| HashBuckets.AddToChain | src/external/uthash.h:770-789 | the element becomes the head of its bucket's chain, links and count right |
| HashBuckets.RemoveFromChain | src/external/uthash.h:792-805 | the element leaves its bucket's chain from any position, links and count right |
| HashOrder.SortOrder | src/external/uthash.h:893-975 | the in-place merge sort of the order list is a stable sort and restores prev links and tail |
| HashExpand.GoesToOneOfTwo | src/external/uthash.h:852-858 | an element of bucket b goes to bucket b or b + num_buckets of the doubled table and nowhere else |
| HashExpand.RedistributionKeeps | src/external/uthash.h:852-873 | moving all elements keeps exactly the same elements, each in the bucket of its hash |
| HashExpand.IdealIsCeiling | src/external/uthash.h:849-851 | the ideal chain length computed by shift and mask is num_items divided by the new bucket count, rounded up |
| HashExpand.MoveAll | src/external/uthash.h:852-873 | the loops that move every element give the redistributed chains and count the elements beyond the ideal length and, bucket by bucket, the multiple of it |
| Chains.MultipleIs | src/external/uthash.h:861-866 | the multiple that a bucket ends up with is the length of its chain in ideal lengths, rounded up, but at most the number of elements beyond the ideal length, and 0 if there are none |
| UtHash.HashTable.ExpandBuckets | src/external/uthash.h:836-886 | doubles the buckets: same elements, same order list, num_buckets = 2^log2, ideal length a ceiling, nonideal_items the sum over the buckets of max(0, count - ideal), every bucket with its multiple, the quality counters updated as the code says |
| UtHash.HashTable.FindByHash | src/external/uthash.h:748-767 | walks the chain of the key's bucket: an element with the key exactly when the table has one |
| UtHash.HashTable.Find | src/external/uthash.h:156-174 | finds an element with the key exactly when one is present, also on the empty table |
| UtHash.HashTable.Add | src/external/uthash.h:399-418 | adds at the end of the order list and keeps the invariant HASH_FSCK checks, making the table of 32 buckets for the first element and doubling it exactly when the chain reaches ten times the bucket's multiple and one and expansion is not given up |
| UtHash.HashTable.AddInorder | src/external/uthash.h:353-384 | adds before the first element that compares above it, keeping the whole invariant, and doubles the table in the same cases |
| UtHash.InorderKeepsSorted | src/external/uthash.h:289-311 | in-order adding keeps a sorted list sorted, behind the elements it is equivalent to |
| UtHash.HashTable.Delete | src/external/uthash.h:453-480 | exactly that element leaves the order list and its bucket, the invariant stays; deleting the last element empties the table |
| UtHash.HashTable.Replace | src/external/uthash.h:257-265 | takes out the element with the same key, if there is one, and adds the new one at the end; with distinct keys that is the update of a map |
| UtHash.HashTable.ReplaceInorder | src/external/uthash.h:247-255 | the same with in-order insertion into what is left, and the same update of a map when keys are distinct |
| UtHash.HashTable.Sort | src/external/uthash.h:893-975 | stable sort of the order list that writes no bucket and no chain link and keeps the whole invariant |
| HashModel.MapValue | src/external/uthash.h:748-767 | with distinct keys the list of elements is a map: the element at a key's position is the map's value |
| HashModel.AppendModel | src/external/uthash.h:399-418 | adding an element with a new key adds one entry to the map |
| HashModel.InsertModel | src/external/uthash.h:353-384 | so does in-order adding, wherever the element goes |
| HashModel.WithoutModel | src/external/uthash.h:453-480 | deleting an element removes exactly its key from the map |
| HashModel.MapOfPermutation | src/external/uthash.h:893-975 | rearranging the elements, as sorting does, leaves the map as it was |
| YyMutArr.Get | src/external/yyjson.h:4661-4669 | on the ring addressed by its last element: the element at that index, null for none or for no array |
| YyMutArr.Insert | src/external/yyjson.h:4944-4973 | on the ring addressed by its last element: the element at that index, the end included, the pointer to the last element moved only then; false for no array, no value or an index past the end |
| YyMutArr.Append | src/external/yyjson.h:4975-4992 | on the ring addressed by its last element: the element at the end |
| YyMutArr.Prepend | src/external/yyjson.h:4994-5011 | on the ring addressed by its last element: the element in front, the pointer to the last element moved only for the empty array |
| YyMutArr.Replace | src/external/yyjson.h:5013-5039 | on the ring addressed by its last element: the element in the old one's place, which is returned; the pointer moved when that was the last |
| YyMutArr.Remove | src/external/yyjson.h:5041-5063 | on the ring addressed by its last element: exactly that element gone and returned; the pointer moved when it was the last |
| YyMutArr.RemoveFirst | src/external/yyjson.h:5065-5082 | on the ring addressed by its last element: the first element gone and returned |
| YyMutArr.RemoveLast | src/external/yyjson.h:5084-5104 | on the ring addressed by its last element: the last element gone and returned, found by a walk |
| YyMutArr.RemoveRange | src/external/yyjson.h:5106-5126 | on the ring addressed by its last element: exactly that range gone, the pointer moved when it reached the end; refused when the range does not fit, except for the ranges whose end runs over the 64 bits of `size_t` and passes the test, which are told apart |
| YyMutArr.Rotate | src/external/yyjson.h:5136-5146 | on the ring addressed by its last element: the sequence rotated by that many elements, by moving the pointer alone |
| YyMutObj.Get | src/external/yyjson.h:5309-5325 | the value of the first pair with the key, null for none |
| YyMutObj.Link | src/external/yyjson.h:5506-5521 | a new pair at the end of the ring of keys and values, circularity kept, also from empty |
| YyMutObj.RemoveAll | src/external/yyjson.h:5523-5550 | every pair with the key leaves the ring, the others stay in order and interleaved, also when all or only the last pairs go; returns the first value |
| YyMutObj.Put | src/external/yyjson.h:5593-5607 | deletes every pair with the key, keeps the others in order, appends the new pair; with no value it only deletes |
| YyMutObj.NoneLeft | src/external/yyjson.h:5523-5550 | after removal no pair with the key is left |
| YyMutObj.OthersKept | src/external/yyjson.h:5523-5550 | removal does not change what is found under any other key |
| YyMutObj.PutUpdates | src/external/yyjson.h:5593-5607 | putting is the update of a map: the new value under the new key, every other key as before |
| YyMutObj.Insert | src/external/yyjson.h:5609-5629 | rotating, adding at the end and restoring the pointer is insertion of the pair at that index |
| YyMutObj.InsertionByRotation | src/external/yyjson.h:5609-5629 | the reason: adding at the end of a rotated sequence and turning it back is insertion at the position |
| YyMutObj.RotatePairs | src/external/yyjson.h:5678-5686 | the pairs rotated by moving the pointer alone |
| YyMutObj.Replace | src/external/yyjson.h:5552-5573 | only the first value with the key takes over tag and payload, no link and no other element changes |
| Tape.TapeDetermines | src/external/yyjson.h:3617-3622 | the encoding is unambiguous: no two trees have the same tape at one position |
| Tape.HeaderIs | src/external/yyjson.h:3617-3622 | a container's header has its number of children and its size in bytes, 16 for each cell |
| Tape.NextSkipsValue | src/external/yyjson.h:3617-3622 | moving to the next value skips exactly the cells of the whole value, containers included |
| Tape.FlatIff | src/external/yyjson.h:3574-3578 | the flat test holds exactly when every child occupies one cell, that is when each is no container or an empty one |
| Tape.ArrGet | src/external/yyjson.h:3958-3971 | the same child through the flat shortcut and through the offset walk, nothing for an index past the end or no array |
| Tape.ArrGetLast | src/external/yyjson.h:3982-3996 | the last child, the same both ways |
| Tape.ObjGet | src/external/yyjson.h:4052-4068 | the value of the first pair with the key, exactly when the object has one |
| Tape.ObjIter.constructor | src/external/yyjson.h:4083-4094 | a new iterator stands before the first pair |
| Tape.ObjIter.Next | src/external/yyjson.h:4100-4108 | returns the pairs' keys in order and keeps the iterator's position consistent |
| Tape.ObjIter.GetKey | src/external/yyjson.h:4119-4147 | finds the first pair with the key going round from any position, moves behind it, and stays put when there is none |
| Tape.CyclicFinds | src/external/yyjson.h:4119-4147 | from any position the iterator finds a key exactly when a search from the start does |
| Tape.CyclicSame | src/external/yyjson.h:4119-4147 | with distinct keys it finds the same pair |
| JsonValues.GetPut | src/external/yyjson.h:5593-5607 | on trees, putting a pair updates a map |
| JsonValues.UpdateBelow | src/c/qcache.c:421-458 | what is put at the end of a path is found there and below it |
| JsonValues.UpdateFrame | src/c/qcache.c:421-458 | and nothing changes on a path that parts from it |
| QCacheOps.Place | src/c/qcache.c:437-456 | padding with nulls and then inserting or replacing puts the value into exactly that slot, with nulls only in slots that did not exist; a negative slot changes nothing |
| QCacheOps.QCache.constructor | src/c/qcache.c:571-592 | the document created has one quadspace at its coordinates behind null padding and is well formed |
| QCacheSpec.TitleFits | src/c/qcache.c:553-554 | the title of a new quadspace and its NUL fit the 16 bytes allocated for them if and only if the QSID is between -9999 and 99999 |
| QCacheOps.QCache.NewQuadspace | src/c/qcache.c:508-569 | fills the slot as the specification step says, whether it is new, null, tombstoned or taken; `broadcast` exactly when it was not taken |
| QCacheOps.QCache.AddQuads | src/c/qcache.c:562-565 | the loop that inserts four quads and, through the path, a workspace into each builds the whole quadspace; at negative coordinates it builds nothing |
| QCacheOps.QCache.NewWorkspace | src/c/qcache.c:421-458 | fills the workspace slot as the specification step says and keeps the document well formed |
| QCacheOps.QCache.RemoveQuadspace | src/c/qcache.c:461-471 | puts the tombstone into the slot, if it exists |
| QCacheOps.QCache.RemoveWorkspace | src/c/qcache.c:473-485 | the same for a workspace |
| QCacheOps.QCache.SearchChart | src/c/qcache.c:163-181 | the first chart whose text starts with the ticker, exactly when there is one |
| QCacheOps.ChosenIs | src/c/qcache.c:163-181 | there is such a chart exactly if the text of some entry that is a chart starts with the ticker, and it is the first of them |
| QCacheOps.QCache.AddChart | src/c/qcache.c:134-161 | appends the chart unless a chart's text starts with the ticker already |
| QCacheOps.QCache.IndicatorAdd | src/c/qcache.c:221-253 | appends '&' and the indicator to the first chart found; 1 exactly when there is one |
| QCacheOps.QCache.IndicatorRemove | src/c/qcache.c:183-219 | cuts the indicator's first occurrence out of that chart's text; 1 exactly when chart and occurrence exist |
| QCacheOps.QCache.RemoveChart | src/c/qcache.c:270-288 | removes the first chart with exactly this text |
| QCacheOps.QCache.SetName | src/c/qcache.c:355-377 | puts the title of a quadspace (WSID -1) or workspace; longer titles than 24 change nothing |
| QCacheEffects.SetNameSets | src/c/qcache.c:360-375 | afterwards the title there is the one given, if it has at most 24 characters, and every other field is what it was |
| QCacheOps.QCache.SetGrid | src/c/qcache.c:336-353 | puts the grid of a quadspace or workspace |
| QCacheEffects.SetGridSets | src/c/qcache.c:342-351 | afterwards the grid there is the one given, and every other field is what it was |
| QCacheEffects.PathsAre | src/c/qcache.c:141 | the paths, token by token: quadverse, quadspace, "quads", quad, "workspace", workspace, "obj" |
| QCacheEffects.NewQuadspaceFills | src/c/qcache.c:508-569 | the slot holds the title "QuadSpace^" with the number, the grid "grid50" and four quads of one empty workspace "NewTab", or the given title and the mark 1; gaps are null, all other slots as before |
| QCacheEffects.DecimalWrites | src/c/qcache.c:554 | the number in the title is the QSID in decimal |
| QCacheEffects.CreatedIs | src/c/qcache.c:571-592 | a created document is that quadspace alone, behind nulls in both arrays |
| QCacheEffects.NewWorkspaceFills | src/c/qcache.c:421-458 | the slot holds a workspace of that title, cut to 24 characters, with the grid "grid100" and no entries; gaps are null, all other slots as before |
| QCacheEffects.RemoveWorkspaceLeaves | src/c/qcache.c:473-485 | the slot of a removed workspace holds the text -1, the others what they held |
| QCacheEffects.RemoveQuadspaceLeaves | src/c/qcache.c:461-471 | the same of a removed quadspace |
| QCacheEffects.AddChartAdds | src/c/qcache.c:134-161 | the entries are the same and the chart behind them, or just the same if a chart's text starts with the ticker |
| QCacheEffects.IndicatorAddAdds | src/c/qcache.c:221-253 | the first such chart's text has '&' and the indicator behind it, every other entry is what it was |
| QCacheEffects.IndicatorRemoveCuts | src/c/qcache.c:183-219 | the first such chart's text is cut in the first of its fields that has the indicator, every other entry is what it was |
| QCacheEffects.IndicatorGoes | src/c/qcache.c:190-211 | of a ticker and its indicators exactly the one to remove goes, the others stay in order, if none before it contains it |
| QCacheEffects.IndicatorMisses | src/c/qcache.c:191-204 | without such a chart, or an indicator in it, nothing changes |
| QCacheEffects.RemoveChartRemoves | src/c/qcache.c:270-288 | exactly the first chart of this text goes from the entries |
| QCacheEffects.SpaceShape | src/c/qcache.c:508-569 | a well-formed document has null, -1, a stock page, or title, grid and four quads in the place of a quadspace |
| QCacheEffects.WorkShape | src/c/qcache.c:421-458 | and null, -1, or title, grid and entries of one text each in the place of a workspace |
| QCacheCuts.CutsField | src/c/qcache.c:202-212 | what the removal does to the '&'-separated fields of any text: a field that starts with the indicator goes, else what stands before the occurrence runs together with the next field, or loses one more character in the last one |
| QCacheCuts.NoPlace | src/c/qcache.c:202-204 | a text none of whose fields has the indicator is left alone |
| QCacheCuts.RemovesOne | src/c/qcache.c:202-212 | an indicator none of the fields before it contains goes alone, the ticker and the others stay in order |
| QCacheRuns.FitsUpdate | src/c/qcache.c:421-592 | exchanging what a path leads to for something well formed there keeps the document well formed |
| QCacheRuns.StepFits | src/c/qcache.c:134-592 | every operation keeps the shape: arrays of null, tombstone or well-formed objects, no key twice; a quadspace has a title and either is a stock page or has a grid and exactly four quads, a workspace has title, grid and entries |
| QCacheRuns.StrictIs | src/c/qcache.c:134-161 | a document is strict if and only if it is well formed and in every workspace the charts have different base tickers |
| QCacheRuns.StepStrict | src/c/qcache.c:134-253 | an operation on a strict document leaves it strict if and only if it is clean: a chart that is added has a new base ticker, and what an indicator's removal leaves of a chart has the base ticker of no other chart |
| QCacheRuns.RunFits | src/c/qcache.c:134-592 | so does every run keep the shape; and a clean run, indicator removals included, leaves no two charts of a workspace with one base ticker |
| QCacheRuns.RunStrict | src/c/qcache.c:134-253 | a run keeps a document strict throughout if and only if every operation is clean where it comes |
| QCacheRuns.PlainRunIsClean | src/c/qcache.c:134-161 | runs without indicator removals are clean if the tickers added have no '&' |
| QCacheRuns.RunFromCreation | src/c/qcache.c:571-592 | shape and distinct tickers hold of every such run from a created document |
| QCacheRuns.TickersDistinct | src/c/qcache.c:134-161 | what that says of any two charts of any workspace |
| QCacheRuns.CutKeepsBase | src/c/qcache.c:202-212 | for every indicator: its removal leaves the chart's base ticker as it was if and only if its first occurrence lies behind it, or the text behind makes up for what goes, or the cut would start before the text |
| QCacheRuns.SparedIsClean | src/c/qcache.c:202-212 | a removal that meets this condition, which can be checked before, is clean |
| QCacheRuns.RemovalCanClash | src/c/qcache.c:202-212 | a run of four operations from a created document that leaves two charts atr in one workspace: charts atr and T, the indicator atr added to T, the indicator T removed; until then the document is strict |
| QCacheFrames.StepFrame | src/c/qcache.c:134-592 | every operation leaves every place that parts from its own coordinate exactly as it was, and where nothing was nothing comes but a null |
| QCacheFrames.RunFrame | src/c/qcache.c:134-592 | a place no operation of a run is about keeps its value through the run, or stays empty or becomes a null if it was empty |
| QCacheFrames.StepGrows | src/c/qcache.c:421-592 | no array of quadverses, quadspaces, quads or workspaces gets shorter, unless the whole quadspace is overwritten |
| QCacheFrames.RunGrows | src/c/qcache.c:421-592 | nor over a run |
| QCacheRuns.IndicatorRoundTrip | src/c/qcache.c:183-253 | adding an '&'-free indicator that does not occur in the chosen chart's text and removing it again restores the whole document |
| Sha1.HashAppend | src/external/sha1.c:232-317 | hashing one more block continues the hash of the blocks before |
| Sha1.Mix | src/external/sha1.c:267-308 | the four loops compute the 80 steps of section 6.1 of RFC 3174 on the word sequence |
| Sha1.Context.Schedule | src/external/sha1.c:245-259 | the word sequence of section 6.1, the first sixteen words big-endian |
| Sha1.Context.ProcessMessageBlock | src/external/sha1.c:232-317 | one block's compression, added to the intermediate hash |
| Sha1.Context.Input | src/external/sha1.c:159-209 | takes in any portion in any state: the context then stands for the longer message; the counters' limit, use after the result and the failed state are reported as the code does |
| Sha1.PadOne | src/external/sha1.c:366-374 | with at most 55 bytes waiting, the padding of section 4 fits the last block |
| Sha1.PadTwo | src/external/sha1.c:351-365 | with more it takes exactly one further block |
| Sha1.CountersAre | src/external/sha1.c:376-386 | the two 32-bit counters written high to low are the 64-bit length field |
| Sha1.Context.PadMessage | src/external/sha1.c:343-389 | leaves the hash of the padded message in both cases |
| Sha1.Context.Result | src/external/sha1.c:101-137 | the digest of the message, on the first and on every later call, unless the context is corrupted |
| Sha1.DigestOfParts | src/external/sha1.c:59-209 | however a message is split into inputs, the digest is RFC 3174's of the whole, and there is one exactly when the message is shorter than 2^61 bytes |
| Sha1Laws.RootsOf | src/external/sha1.c:235-238 | the four constants are the integer parts of 2^30 times the square roots of 2, 3, 5 and 10 |
| Sha1Laws.FBit | src/external/sha1.c:267-308 | the function of a step takes the bit of the second or third word as the first says, the parity, or the majority, bit by bit |
| WordLaws.RotlIs | src/external/sha1.c:37-38 | the circular shift moves the low bits up and brings the others in below them |
| WordLaws.WordOp | src/external/sha1.c:267-308 | and, or and exclusive or of 32-bit numbers are those of bit vectors |
| Sha1Laws.BigEndianIs | src/external/sha1.c:245-251 | the first sixteen words are the bytes read in base 256, the first one highest |
| Sha1Laws.WordBytesIs | src/external/sha1.c:130-134 | the digest bytes are those of the words, highest first |
| Sha1Vector.DigestOfAbc | src/external/sha1.c:232-317 | the digest of "abc" is the one of section 7.3 of RFC 3174, through all 80 steps |
| Bitwise.BitsLow | src/external/md5.c:67-72 | the low bits of a bitwise operation come from the low bits of its operands, so 64-bit words act on their low halves as 32-bit words do |
| Bitwise.Select | src/external/md5.c:79 | z ^ (x & (y ^ z)) is the standard's F |
| Bitwise.SelectBack | src/external/md5.c:100 | y ^ (z & (x ^ y)) is the standard's G |
| Md5.LowS | src/external/md5.c:67 | the shift macro on 64-bit words rotates the low 32 bits |
| Md5.StepLow | src/external/md5.c:69-72 | one step on 64-bit words is congruent to the 32-bit step of section 3.4 of RFC 1321 |
| Md5.Round1 | src/external/md5.c:81-96 | the 16 steps as listed, with their word indices, shifts and constants, are steps 1 to 16 of RFC 1321 |
| Md5.Round2 | src/external/md5.c:102-117 | steps 17 to 32 |
| Md5.Round3 | src/external/md5.c:123-138 | steps 33 to 48 |
| Md5.Round4 | src/external/md5.c:144-159 | steps 49 to 64 |
| Md5.Context.Process | src/external/md5.c:46-167 | one block's compression, modulo 2^32 in every register |
| Md5.Context.Update | src/external/md5.c:169-200 | takes in any portion: the context then stands for the longer message, and the carries the counter loses and the times it runs over are exactly counted |
| Md5.LostNone | src/external/md5.c:179-183 | an update counts its length right if and only if the first counter's value and the length add up to less than 2^33 |
| Md5.PaddingRight | src/external/md5.c:210-233 | the padding written from the counters is the standard's, for a message of any length, if and only if the number of carries lost is a multiple of 2^29 |
| Md5.LosesOne | src/external/md5.c:179-183 | one update of 2^33 bytes loses a carry and is padded wrong |
| Md5.LengthBytes | src/external/md5.c:216-221 | the shifted counters give the 64-bit length field |
| Md5.KnownIs | src/external/md5.c:179-183 | with no carry lost the counters give the digest of the whole message, however often the second one ran over |
| Md5.Context.Finish | src/external/md5.c:210-233 | the digest of the message padded with the length the counters hold |
| Md5.DigestOfParts | src/external/md5.c:35-233 | however a message is split into updates of at most 2^32 bytes, the digest is RFC 1321's of the whole |
| Md5.Checksum | src/external/md5.c:235-243 | the one-call digest is RFC 1321's for every size an `int` holds |
| Md5Vector.DigestOfAbc | src/external/md5.c:46-167 | the digest of "abc" is the one of appendix A.5 of RFC 1321, through all 64 steps: every constant, shift and word index counts |
| Base64Spec.LettersAre | src/external/base64.c:15-16 | the letters are A to Z, a to z, 0 to 9, '+' and '/' in this order, and '=' pads |
| Base64Spec.ValuesAre | src/external/base64.c:18-47 | a byte has the value of the letter it is, 0 for '=', and none else |
| Base64Spec.EncodesFoobar | src/external/base64.c:66-101 | three tests of section 10 of RFC 4648, one for each length of the last group |
| Base64Spec.RoundTrip | src/external/base64.c:66-210 | decoding undoes encoding for every byte string; only the empty one yields nothing |
| Base64Spec.EncodedForm | src/external/base64.c:66-101 | an encoding has 4*ceil(n/3) characters, all of the alphabet or '=' |
| Base64Spec.JunkIgnored | src/external/base64.c:163-210 | characters outside the alphabet and '=' may be inserted anywhere without changing the result |
| Base64Spec.RoundTripWithJunk | src/external/base64.c:163-210 | any text that has the letters of an encoding in order decodes to what was encoded |
| Base64Spec.EncodedLenIs | src/external/base64.c:49-53 | `base64_encoded_len` is the encoding's length if and only if that fits 32 bits: the mask has only 32 |
| Base64Spec.OverflowTest | src/external/base64.c:73-75 | the overflow test lets through exactly the inputs whose encoding fits 32 bits, for every 64-bit length |
| Base64.Validate | src/external/base64.c:56-64 | true exactly for texts of the alphabet and '=' |
| Base64.Encode | src/external/base64.c:66-101 | writes section 4 of RFC 4648's encoding and a NUL and returns its length; writes nothing and returns 0 when it would not fit 32 bits |
| Base64.Decode | src/external/base64.c:163-210 | the decoded bytes and a NUL; 0 for no letters, a count that is no multiple of 4, or more than two '=' in the last group |
| FrameSpec.MaskedTwice | src/c/websocket.c:216-221 | masking again with the key unmasks |
| FrameSpec.NumberRoundTrip | src/c/websocket.c:115-119 | a length written in network order is read back |
| FrameSpec.XorByteBit | src/c/websocket.c:216-221 | masking flips exactly the bits that the key has |
| FrameSpec.WireIs | src/c/websocket.c:231-283 | a frame byte by byte: first byte, mask bit with the length or 126 or 127, the length highest byte first, key, and the payload combined with the key octet by octet |
| FrameSpec.HelloFrame | src/c/websocket.c:231-283 | the masked "Hello" of section 5.7 of RFC 6455 |
| FrameSpec.FindsFrame | src/c/websocket.c:106-131 | a frame in any of the three length forms is found with its payload and key, its length cut to the 32 bits of the field it is stored in; the step to the next one, cut to an `int`, is right up to 125 bytes and one byte short beyond |
| FrameSpec.ScanStream | src/c/websocket.c:98-142 | the frames of a stream whose length an `int` holds are found if and only if all but the last one looked at have payloads of at most 125 bytes |
| FrameSpec.ScanOrdered | src/c/websocket.c:98-142 | in any buffer, frames that lie in it are found one behind the other, so no payload is unmasked twice |
| FrameSpec.StreamFound | src/c/websocket.c:209-228 | for one to four frames, all but the last with at most 125 bytes, the messages found are the payloads in order, each NUL-terminated |
| WebSocket.ExtractFrames | src/c/websocket.c:98-142 | the loop finds what the specification's scan finds, at most five frames, in every buffer, with the payload's length cut to an `unsigned int` and the frame's to an `int`; memory outside the buffer reads as 0 |
| WebSocket.CopyPayload | src/c/websocket.c:217-222 | unmasks one payload in place and copies it with a NUL behind, touching nothing after it |
| WebSocket.Recv | src/c/websocket.c:191-228 | the message buffer is the payloads of the frames found, in order, unmasked and NUL-terminated, whatever the packet, as long as they lie in it and there is room; -1 for five and more, -2 for a close, -1 for other opcodes without the bit of 2 |
| WebSocket.Opcodes | src/c/websocket.c:198-208 | of the final frames without reserved bits a text is taken apart and a close frame is told; a ping is refused, but binary frames and pongs are taken like texts |
| WebSocket.RecvStream | src/c/websocket.c:191-228 | one to four text frames in one packet are received as the number of them and their payloads in order; five and more are refused |
| WebSocket.FitsIff | src/c/websocket.c:231-283 | the frame has room in the message if and only if the payload has at most 1048562 bytes, or at least 1048576 and an index below 2^31; of the lengths between it overruns the buffer by 1 to 13 bytes |
| WebSocket.Send | src/c/websocket.c:231-290 | on a client connection fills the message buffer with the masked frame of sections 5.2 and 5.3 of RFC 6455 in the right length form; nothing for a length whose low half is no positive `int`, an overrun exactly where there is no room |
| WebSocket.SendThenRecv | src/c/websocket.c:191-290 | what is sent is received byte for byte exactly for payloads of at most 1048562 bytes and for those from 1048576 bytes on whose frame's length an `int` holds |
| Calendar.LeapSum | src/external/strptime.cxx:36-37 | `isleap_sum(a, b)` is `isleap(a + b)`, for arguments of either sign |
| Calendar.LeapRule | src/external/strptime.cxx:36 | the macro with C's remainder is the Gregorian rule, for years of either sign |
| Calendar.WdayNext | src/external/strptime.cxx:91-96 | a year begins 365 or 366 weekdays after the year before it, for every year from 0 |
| Calendar.WdayIs | src/external/strptime.cxx:91-96 | the closed form is counting days from a Saturday |
| Calendar.KnownDays | src/external/strptime.cxx:91-96 | 1970, 2000 and 2024 began on a Thursday, a Saturday and a Monday |
| Calendar.DaysClosed | src/external/strptime.cxx:91-96 | the number of those days in closed form |
| Calendar.WdayPeriod | src/external/strptime.cxx:91-96 | the weekdays repeat after 400 years |
| Calendar.TableIs | src/external/strptime.cxx:77-82 | the table of month starts adds up the months' lengths |
| Calendar.MonthStarts | src/external/strptime.cxx:77-82 | from March on the table is the days of 153 in five months |
| Calendar.YdayInjective | src/external/strptime.cxx:292-296 | no two dates of a year have one day of the year |
| Calendar.MonthAndDay | src/external/strptime.cxx:317-338 | the search gives the date with that day of the year; day 366 of a common year becomes the first of January of the next |
| Calendar.DateRoundTrip | src/external/strptime.cxx:292-338 | from every valid date to its day of the year and back |
| Calendar.ConvNum | src/external/strptime.cxx:357-381 | reads at least one digit and stops only at a non-digit, when it has read as many digits as the limit has, or when ten times the value, modulo 2^32, exceeds it; gives the number read modulo 2^32, and accepts it exactly between the limits; for limits below 10^9 nothing wraps |
| Calendar.ReadsWritten | src/external/strptime.cxx:357-381 | the digits of a number are read as that number |
| CString.JoinFields | src/c/lib.c:612-633 | joining the fields rebuilds the message up to one separator at its end |
| CString.FieldsPlain | src/c/lib.c:612-633 | no field has the separator in it |
| CString.Split | src/c/lib.c:612-633 | returns the smaller of the number of fields and max + 1, and the first max arguments are the first fields as NUL-terminated strings in place; the result exceeds max exactly when there are more fields than that, which is what the callers check |
| CString.DecimalIs | src/c/lib.c:599-610 | the digits written are those of the number |
| CString.Itoa | src/c/lib.c:599-610 | writes the digits without a NUL and returns one more than their number |

## Left out

- UtHash.HashTable.Add: counts of items, buckets and chain lengths are unbounded numbers; their 32-bit wrap-around after 2^31 elements or buckets is not modelled. `UT_hash_handle` is one object of the source and two here, a list node and a bucket handle; the key is compared as a string and the hash is a given function of it.
- UtHash.HashTable.Sort: `HASH_SELECT`, the optional Bloom filter and the rollback on a failed allocation are left out; allocation always succeeds.
- ListSort.DLSort: counters such as `insize` are unbounded; 2^31 and more nodes are not considered.
- Singly linked list edits, stacks, ring buffers and `utarray.h`: they would only add easier members.
- YyMutArr.RemoveRange: how the array is linked up after a range that runs over is let through.
- Mutable JSON iterators and their removal, pool allocation, parsing and writing of JSON text.
- Tape.ObjGet: the key is never null, and raw values are left out of the tree.
- QCacheOps.QCache.NewQuadspace: the document is one value that the methods reassign, so sharing of nodes between documents and the moment at which a new object is attached before it is filled are not captured. Where the title overruns its buffer (`QCacheSpec.TitleFits`) it is just longer here.
- QCacheOps.QCache.NewWorkspace: what the uninitialised title buffer holds behind 24 copied bytes is a parameter.
- QCacheOps.QCache.IndicatorRemove: for an occurrence at the very start with no '&' behind it the source writes one byte before the text; the model leaves the text as it is.
- Path lookup takes a numeric token against an object to lead nowhere; no object of a well-formed document has a numeric key on a path. The lookup follows section 4 of RFC 6901; its source body is not part of this model.
- QCacheOps.QCache.AddChart: saving (`qcache_save`), the other object kinds (`qcache_add_object`, `qcache_set_position`) and the choice between a session's and a page's document are left out.
- Sha1.Context.Input: null pointers are not modelled; the status codes are names, since `sha1.h` is not part of this model.
- Md5.Context.Update: ORs and additions of numbers with no bit in common, as in reading and writing words byte by byte, are written as sums.
- Base64.Decode: texts of 2^31 bytes and more overrun its `int` index and are excluded. The tables are given by the rule in the source's comment, not entry by entry.
- WebSocket.Recv: that the frames found lie in the packet and that there is room in the message buffer is a precondition; the source checks neither. The pointers and lengths it writes back into the frames are left out.
- WebSocket.ExtractFrames: a remaining length that runs over when a negative frame length is subtracted, which C leaves undefined, is an unbounded number here.
- WebSocket.Send: only the client's side, which masks; the server's unmasked frames and the write to the connection are left out, and so is what an overrun of the message buffer does.
- The handshake, pings and the older `websocket_recv2`.
- Calendar.MonthAndDay: the table is read as it lies in memory, both rows one after the other; days of the year below 0 or above 365, which week-based formats can give, read outside the table and are excluded.
- The weekday loop of `strptime`, week-of-year dates and the conversion of names.
- CString.Split: the separator is not NUL and the argument array has room for `max` entries.
- Sockets, TLS, files, routing, HTML and the other modules of the server.
