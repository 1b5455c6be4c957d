# AGENT++ verification model

This project models the parts of AGENT++ that decide what an SNMP agent answers, and proves
properties of them that hold for every input, every run and every interleaving.

| module | models |
|---|---|
| `Oids` | object identifiers and their lexicographic order |
| `SortedKeys`, `SortedItems` | the specification of an ordered container: positions in an ascending list of keys, `Put` and `Drop` |
| `AvlShape`, `AvlRebalance`, `AvlSteps`, `AvlMaps` | `OidxPtrEntryPtrAVLMap`: the threaded AVL tree over heap nodes, updated in place |
| `AvlHeight` | how few keys a tree of a given height holds |
| `OidLists` | `OidList`, `OidListCursor` and the loops that delete while iterating |
| `MibTables` | the search for the next instance in a conceptual table |
| `GetNexts`, `Walks` | GETNEXT through a context, access control included, and its repetition |
| `GetBulks` | GETBULK and its repetition rows |
| `RequestLocks` | the locks of a SET request on entries and listeners |
| `SetProtocol` | prepare, commit, undo and cleanup of SET requests on scalars |
| `RowStatuses`, `RowTables` | SET requests on conceptual rows and the RowStatus state machine |
| `LockQueues`, `LockAnswers` | the lock queue as a step relation |
| `ThreadPools`, `Handovers` | the thread pool as a step relation |
| `VacmAccess`, `VacmViews` | selection of the access row and of the view family |
| `NotificationLogs` | logging of notifications and the limits of the log |

The layers use each other through specifications. The tree is proved once to be `Put` and `Drop` on
an ordered list of items (`AvlMaps`), the nearest-key queries and cursors to be `Floor` and `Below` of
its keys (`OidLists`), and the searches above use only `Floor` and `Below`.

## What is proved

**The ordered store.** A ghost tree of entries describes the heap: `Rep` says that every node holds
its key and value, that each link is the child or, when its thread bit is set, the in-order neighbour,
and that the balance code is the true height comparison. `Good` adds that the tree is balanced and that
no node occurs twice. Every insertion, deletion and rotation is proved to keep all of this and to have
exactly the effect of `Put` or `Drop`, in logarithmically many steps. Deletion is proved to free the
node of the key or that of its predecessor, so that a cursor that has moved on to the successor stays
valid.

**GETNEXT.** For any registration with disjoint scopes the code is proved to give the least visible
instance above the request, except for those that `Skipped` describes: after a table that shows
nothing, the search goes on from `max_key()`, and a scalar whose key is exactly that bound is taken
for the entry that has just been looked at. `ExactlyWhenRight` proves that the search is right for
all views and requests if and only if no scalar sits at the bound of a table with rows. Agents that
end scalar keys in 0 are safe (`InstanceSuffix`). A walk shows every visible instance once except the
scalars of `Missed`, which depend on what the view shows of the table before them;
`NothingButMissed` exhibits a walk that shows nothing although a scalar is visible.

**GETBULK.** Every binding is the GETNEXT of the binding one row above, whatever rows the agent
produces; `RowsIterateGetNext` spells this out as iteration. The response is shorter than requested
only for a reason that is part of the contract: the last column has ended, or the message is full.
`Serve` says exactly when a request is given up, when a row is added and when a finished response is
cut. A row is measured before it is answered, so a response can be longer than the limit
(`LongerThanLimit`); `FitsExactly` says when it cannot, and `Truncated` proves that what is sent fits.

**SET.** On scalars a request is all-or-nothing for every possible failure if and only if no object is
changed by one of its sub-requests and written again by a later one (`AtomicExactlyWhenHarmless`): the
undo copy is overwritten. Requests with distinct objects always satisfy this, and `ServeAll` refines a
run of them to a run of atomic map updates, with the exact answer to each. In tables, `StatusTable` and
`ServeRow` prove the table of section 2 of RFC 2579 for every state and every requested status: which
requests are done, and with which row. A request with any number of statuses keeps the status of every
row telling whether its values are acceptable, exactly if it is `Safe` for the row. That does not mean
that required columns have been set: `RequiredGiven` says for which tables it does.

**Locks and threads.** `LockQueues` and `ThreadPools` are labelled transition systems with one step for
each stretch of code between two monitor operations. Their invariants are proved for every reachable
state. A rank that only the thread's own steps change bounds each pass of the queue thread
(`PassEnds`), the wait for a release (`ReleaseBounded`), for an attempt (`TriedBounded`) and for an
answer without waiting (`ImpatientBounded`), the way of a task to an idle manager (`HandedOver`) and a
task in a manager (`FinishedByTwo`), whatever the other threads do in between. What an answer says is
proved against the history of the run (`LockedExactlyIfGranted`). For the locks of a SET request,
`BalancedExactly` says which sequences of calls hold exactly the needed mutexes throughout, and
`ReleasedTwice` exhibits one that does not.

**Access control and the notification log.** The access row chosen is the unique best candidate of the
whole table. View families are looked up through an index that is proved to list exactly the rows of
the table. The eviction loops of the log are proved equal to three small functions on the rows in the
order of logging, and the rows that these keep to be exactly those within all limits (`KeptExactly`).

## Reading the model

- Keys are values (sequences of numbers); the addresses of stored objects are numbers, 0 being null.
- The recursion of `_add` and `_del` returns the new subtree instead of assigning through a reference
  parameter. Their scratch fields `_need_rebalancing`, `_found_node` and `_already_found` are the
  out-parameters `grown`, `shrunk`, `found` and the separate method `DelLast`. The `stat` word is three
  fields. Each function is split into methods for one node each.
- Ghost parameters (`i`, `l`, trees) say where a cursor stands; they do not occur in the program.
- The view of a requester is a total predicate, and `MibTable::update` does nothing during a request.
- The values of the bindings of a GETBULK request as received are `Unspecified`.
- Messages from a subclass or the user (`value_ok`, voters, a failing `set_value`) are parameters.
- `Vbx::valid` and `value_ok` are parameters of a table, functions of column and value. The value of a
  column includes the lack of one. The flag `given` is the validity flag of a leaf, which new rows
  lose for required columns.
- A run in `RequestLocks` is the list of calls with the states between them.
- A `Calling`, `Looking` or `Setting` thread of `ThreadPools` is one that is in the named part of
  `execute` or `assign`; spurious wakeups of condition variables are not part of `LockQueues`.

## Where code and documentation differ

- The comment at src/mib.cpp:4595 announces a trim to N + M * R variables. The code also cuts a
  response that is not longer, exactly if the repetitions before the last binding hold R ends of view
  or more, counted over all rows (`GetBulks.Request.CutExactly`, exported by `Serve` as `Trimmed`).
  Then a response can end in the middle of a row, without a value that its next column has
  (`GetBulks.CutInsideRow`).
- A GETBULK request is given up exactly if one of its non-repeaters has no successor (`Hopeless` in
  `GetBulks.Request.Serve`); the bindings after it are not looked at, though they may have a successor
  (`GetBulks.GivenUpEarly`). Section 4.2.3 of RFC 3416 goes on.
- The comment on `add_rep_row` (src/request.cpp:557-562) promises that there is room for another
  repetition. What is measured is a copy of the row before; with longer answers the response exceeds
  the limit (`GetBulks.LongerThanLimit`, `GetBulks.Request.FitsExactly`) and is truncated later.
- Listeners of a locked table count as locked. If a listener is locked itself, in a request with its
  table, it can be unlocked while the table still needs it, and then once more; exactly when is
  `RequestLocks.Sparing` (`RequestLocks.BalancedExactly`, `RequestLocks.ReleasedTwice`).
- Families of equal length: section 4 of RFC 3415 prefers the lexicographically greatest subtree; the
  code prefers the family added last (`VacmViews.StandardExactlyWhenAscending`).
- The comment at src/mib.cpp:2222-2226 promises that a row is ready when all required columns have been
  given. The code looks at the cloned value only, not at the flag that it clears when it clones: a
  required column whose initial value is acceptable counts as given (`RowStatuses.RequiredGiven`).
- Destroying an active row in a request with later sub-requests for the row leaves a row with the values
  of a new one and the status destroy (`RowTables.StatusTable`); RFC 2579 has no such status.
- Two RowStatus values for one row in one request can make an incomplete row active
  (`RowStatuses.Safe`); section 4.2.5 of RFC 3416 leaves requests naming a variable twice open.

## Model

| member | source | states |
|---|---|---|
| Oids.LessTotal | include/agent_pp/oidx_defs.h:61-62 | the order of keys compares any two identifiers |
| Oids.LessTransitive | include/agent_pp/oidx_defs.h:61-62 | the order of keys is transitive |
| Oids.SubtreeIsInterval | src/mib.cpp:3504-3509 | an identifier lies in the subtree of a table if and only if it lies between its key and its key with the last sub-identifier increased: the two tests of find_managing_object agree |
| SortedKeys.FloorIsGreatest | include/agent_pp/List.h:807-823 | the floor position separates the keys up to x from those above x |
| SortedKeys.BelowUnique | include/agent_pp/List.h:825-840 | the position of the least key not below x is the only one with its neighbours on the right sides |
| SortedItems.PutIsUpdate | src/avl_map.cpp:441-458 | putting into an ordered list keeps it ordered and is a map update |
| SortedItems.DropIsRemove | src/avl_map.cpp:759-778 | dropping from an ordered list keeps it ordered and removes the key from the map |
| AvlShape.DoubleRotationSame | src/avl_map.cpp:286-330 | a double rotation keeps the in-order sequence, the nodes and their distinctness |
| AvlRebalance.TwistLeft | src/avl_map.cpp:286-332 | a left-right double rotation in the heap represents the rotated tree |
| AvlRebalance.TwistRight | src/avl_map.cpp:389-435 | a right-left double rotation in the heap represents the rotated tree |
| AvlRebalance.GrowLeft | src/avl_map.cpp:251-333 | after the left subtree has grown, codes and rotations restore a represented AVL tree with the same contents, and the result says whether the whole has grown |
| AvlRebalance.GrowRight | src/avl_map.cpp:354-436 | the mirror image for the right subtree |
| AvlRebalance.ShrinkLeft | src/avl_map.cpp:538-642 | after the left subtree has shrunk, all rotation cases restore a represented AVL tree, and the result says whether the whole has shrunk |
| AvlRebalance.ShrinkRight | src/avl_map.cpp:651-755 | the mirror image for the right subtree |
| AvlSteps.AttachLeft | src/avl_map.cpp:235-246 | a new left leaf is threaded to its in-order neighbours |
| AvlSteps.AttachRight | src/avl_map.cpp:338-349 | a new right leaf is threaded to its in-order neighbours |
| AvlSteps.PathsWithinHeight | src/avl_map.cpp:460-662 | neither a search nor the descent of a deletion, including its second part to the predecessor, visits more nodes than the tree is high |
| AvlSteps.Add | src/avl_map.cpp:224-439 | the insertion keeps representation, balance, order and distinct nodes, inserts exactly one entry at its place or finds the old one, reports growth correctly, and visits exactly the search path of the key |
| AvlSteps.Succ | src/avl_map.cpp:123-132 | the successor by threads and links is the next entry in key order |
| AvlSteps.Pred | src/avl_map.cpp:134-143 | the predecessor by threads and links is the entry before in key order |
| AvlSteps.Unlink | src/avl_map.cpp:481-520 | a node without a child on one side is unlinked: its parent, or its only child's thread, is relinked to the right in-order neighbour |
| AvlSteps.DelLast | src/avl_map.cpp:464-477 | in the mode where the key is already found, the last entry of the subtree is unlinked and its node freed, visiting the nodes on the way to it |
| AvlSteps.Replace | src/avl_map.cpp:521-529 | a node with two children takes over key and value of its predecessor |
| AvlSteps.Del | src/avl_map.cpp:460-757 | the deletion keeps representation, balance, order and distinct nodes, removes exactly the key if it is there, frees the node of the key exactly if it lacks a child and otherwise that of its predecessor, reports shrinking correctly, and visits the search path of the key and, if the key has two children, the path on to its predecessor |
| AvlHeight.HeightBound | src/avl_map.cpp:145-180 | a tree of height h holds at least Fib(h + 2) - 1 keys |
| AvlHeight.HeightBoundIsTight | src/avl_map.cpp:145-180 | for every height a balanced tree attains the bound |
| AvlHeight.LogarithmicHeight | src/avl_map.cpp:251-333 | two to half the height is at most one more than the number of keys |
| AvlMaps.AvlMap.At | src/avl_map.cpp:441-458 | operator[] keeps the invariant; it returns the node of the key, inserting the default value in place if the key was missing, in logarithmically many steps |
| AvlMaps.AvlMap.Store | src/avl_map.cpp:441-458 | an assignment through operator[] is Put on the contents |
| AvlMaps.AvlMap.Remove | src/avl_map.cpp:759-778 | del keeps the invariant and the count, is Drop on the contents, and gives up no node or exactly one: that of the key exactly if it had a thread bit set, else that of the key before it; it takes logarithmically many steps |
| AvlMaps.AvlMap.Leftmost | src/avl_map.cpp:101-110 | the first cursor stands at the least key |
| AvlMaps.AvlMap.Rightmost | src/avl_map.cpp:112-121 | the last cursor stands at the greatest key |
| AvlMaps.AvlMap.Next | include/agent_pp/avl_map.h:127-133 | next moves a cursor to the following position or to null |
| AvlMaps.AvlMap.Prev | include/agent_pp/avl_map.h:135-141 | prev moves a cursor to the position before or to null |
| AvlMaps.AvlMap.Descend | src/avl_map.cpp:145-222 | a search path takes logarithmically many steps and ends at the key or at an in-order neighbour of where it would be |
| AvlMaps.AvlMap.Seek | src/avl_map.cpp:145-180 | seek finds the key exactly if it is there |
| AvlMaps.AvlMap.SeekInexact | src/avl_map.cpp:182-222 | seek_inexact returns the key or one of its two neighbours, null only for an empty map |
| AvlMaps.AvlMap.Clear | include/agent_pp/avl_map.h:161-166 | clear leaves the empty map |
| AvlMaps.AvlMap.OK | src/avl_map.cpp:803-835 | the run-time self check succeeds on every map that the operations can produce |
| AvlMaps.ThreadBits | src/avl_map.cpp:69-95 | in a sound tree the thread bits of a node are set exactly if it lacks a child |
| AvlMaps.NearClosest | src/avl_map.cpp:182-222 | where a search path ends, no key lies strictly between that key and the one searched for |
| OidLists.RemovedPosition | src/avl_map.cpp:479-529 | after the removal of a key the entry behind it, node and all, stands at its position |
| OidLists.CursorSurvives | src/avl_map.cpp:479-529 | every other entry keeps key and value, and a cursor at it still denotes it exactly if its node is not the freed one |
| OidLists.Found | include/agent_pp/List.h:796-872 | what each look-up finds, in terms of one item, its key and its neighbours |
| OidLists.NothingFound | include/agent_pp/List.h:796-872 | when each look-up finds nothing |
| OidLists.OidList.FindLower | include/agent_pp/List.h:807-823 | find_lower is the value of the greatest key that is at most x |
| OidLists.OidList.FindUpper | include/agent_pp/List.h:825-840 | find_upper is the value of the least key that is at least x |
| OidLists.OidList.Find | include/agent_pp/List.h:796-805 | find is the value of the key, null if it is missing |
| OidLists.OidList.FindNext | include/agent_pp/List.h:842-856 | find_next is the value behind that of the key |
| OidLists.OidList.FindPrev | include/agent_pp/List.h:858-872 | find_prev is the value before that of the key |
| OidLists.OidList.GetNth | include/agent_pp/List.h:909-919 | getNth is the value at the position |
| OidLists.OidList.Index | include/agent_pp/List.h:921-932 | index is the position of the key or -1 |
| OidLists.OidList.Add | include/agent_pp/List.h:773-777 | add is Put on the contents |
| OidLists.OidList.Remove | include/agent_pp/List.h:779-794 | remove is Drop on the contents |
| OidLists.OidList.AdvanceRemove | src/mib.cpp:2815-2818 | advancing a cursor and removing the element it stood at leaves the cursor at the same node, key and value |
| OidLists.OidList.ClearAll | include/agent_pp/List.h:938-950 | clearAll visits every element once in key order and leaves the list empty |
| OidLists.OidList.RemoveObsolete | src/mib.cpp:2796-2825 | remove_obsolete_rows keeps exactly the confirmed rows, in order |
| OidLists.KeptConfirmed | src/mib.cpp:2796-2825 | the rows kept are in order, and an item is among them exactly if it was before and its key is confirmed |
| OidLists.OidListCursor.Next | include/agent_pp/List.h:1019-1031 | next advances the cursor by one position and tells whether it is still on an element |
| OidLists.OidListCursor.Lookup | include/agent_pp/List.h:1047-1068 | lookup agrees with find_lower, and stays where it is if there is no lower key |
| MibTables.ColumnMajor | include/agent_pp/mib.h:2118-2131 | instance identifiers are ordered by column, then by row index |
| MibTables.StartRow | src/mib.cpp:1961-1968 | the row from which the scan starts has no greater instance before it |
| MibTables.FindNext | src/mib.cpp:1932-1979 | find_next returns the least leaf of the whole table above o, or none exactly if there is none |
| MibTables.FindSucc | src/mib.cpp:1981-2000 | find_succ returns the identifier of an accessible leaf with a value above o, and no such leaf lies between; it is empty exactly if there is none |
| GetNexts.SuccessorUnique | src/mib.cpp:3734-3763 | there is only one right answer to a GETNEXT |
| GetNexts.FindManagingObject | src/mib.cpp:3482-3516 | the status for every request, and success exactly for the entry whose scope holds the identifier; no other entry manages it |
| GetNexts.FindNext | src/mib.cpp:3518-3573 | every instance of the entries passed lies at or below the request, only empty tables lie between, and a table found with an instance has its least instance above the request |
| GetNexts.NextInTable | src/mib.cpp:3622-3643 | the loop over a table finds its least visible instance above the request |
| GetNexts.NextAccessControl | src/mib.cpp:3595-3654 | it gives the least visible instance of the entry above the request, or the bound of an entry without one |
| GetNexts.NotReached | src/mib.cpp:3524-3551 | the search does not come to the front of an entry after it has been in the table whose bound is the key of that entry |
| GetNexts.StepOver | src/mib.cpp:3632-3636 | going on from the bound of an exhausted entry misses nothing but skipped scalars, and makes progress |
| GetNexts.GetNext | src/mib.cpp:3734-3763 | GETNEXT terminates with the least visible instance above the request that is not skipped, and with the end of the view exactly if there is none |
| GetNexts.ExactlyWhenRight | src/mib.cpp:3734-3763 | GETNEXT is right for all requests in all views if and only if no scalar is registered at the bound of a table with rows |
| GetNexts.MissedScalar | src/mib.cpp:3632-3636 | for every such scalar, a view and a request that are answered with the end of the view although the scalar lies ahead |
| GetNexts.InstanceSuffix | src/mib.cpp:3734-3763 | if all scalar keys end in 0, GETNEXT is always right |
| GetNexts.CollidingRegistration | src/mib.cpp:3632-3636 | a registration with a scalar at the bound of a table that has rows, for which GETNEXT is not always right |
| Walks.SkippedInWalk | src/mib.cpp:3595-3654 | during a walk a scalar ahead is jumped over exactly if it is one of those that the walk misses |
| Walks.NextShown | src/mib.cpp:3726-3817 | from one instance of a walk GETNEXT leads to the next one that the walk shows |
| Walks.Walk | src/mib.cpp:3726-3817 | for every registration, repeated GETNEXT from the empty identifier shows exactly the visible instances that are not missed, each once in ascending order, then ends |
| Walks.CompleteWalk | src/mib.cpp:3518-3573 | a walk shows everything visible exactly if it misses no visible scalar, as where no scalar sits at the bound of a table with rows |
| Walks.NothingButMissed | src/mib.cpp:3632-3636 | on a registered context, a walk that shows nothing although the view holds a scalar |
| GetBulks.Request.constructor | src/request.cpp:98-148 | negative counts read as zero, and without repetitions the repeating variables are dropped |
| GetBulks.Request.Finish | src/request.cpp:328-395 | the answer is stored once, the count of outstanding sub-requests follows, and an exception gets back the requested identifier |
| GetBulks.Request.AddRepRow | src/request.cpp:563-616 | a copy of the last row is appended exactly if the response is shorter than the limit and with the copy not longer; otherwise nothing changes |
| GetBulks.Request.Columns | src/mib.cpp:4400-4540 | all columns of a row are answered by GETNEXT, and the outstanding count is exact |
| GetBulks.Request.Repetition | src/mib.cpp:4385-4568 | one pass answers a row and prepares the next one, or stops because the last column has ended or the message is full |
| GetBulks.Request.NonRepeaters | src/mib.cpp:4282-4376 | the non-repeaters are answered in turn up to the first without a successor |
| GetBulks.Request.ProcessGetBulk | src/mib.cpp:4250-4569 | every binding is the GETNEXT of its base, the number of rows is bounded by the repetitions, every early stop has its reason, and giving up leaves the later bindings as requested |
| GetBulks.Request.TrimBulkResponse | src/request.cpp:777-814 | the response is cut behind the R-th end of view or at the row limit, whichever comes first, a response that is not longer stays, and no binding is changed |
| GetBulks.Request.CutExactly | src/request.cpp:777-814 | a response of at most N + M * R bindings loses one if and only if its repetitions, without the last binding, hold at least R ends of view; what is left ends with the R-th |
| GetBulks.Request.Serve | src/mib.cpp:4250-4606 | a request is given up if and only if some non-repeater has no successor, with the later bindings as requested. Otherwise each row but the first was added to a response whose last binding had data, shorter than the limit and with a copy of its last row not longer; the rows end at the repetitions allowed, at the end of the view in the last column, or where another row has no room; and what is left is cut exactly as stated, to at most N + M * R bindings, all answered |
| GetBulks.Request.FitsExactly | src/request.cpp:576-596 | a response fits under every limit that admits its rows if and only if one of the lengths measured on the way was no less than its own |
| GetBulks.LongerThanLimit | src/request.cpp:576-596 | one short and one long answer: a response beyond the limit |
| GetBulks.Request.Truncated | src/request.cpp:1236-1263 | what is sent fits the limit or is tooBig alone; a response that fits is sent whole, another one without its last k rows for the least k that makes it fit, and tooBig exactly if none does before the repetitions are used up |
| GetBulks.CutInsideRow | src/request.cpp:777-814 | two repeaters, two repetitions: the last row is cut behind its first column although its second column has data |
| GetBulks.GivenUpEarly | src/mib.cpp:4303-4312 | two non-repeaters, the first without a successor: the second, which has one, gets no answer |
| GetBulks.RowsIterateGetNext | src/mib.cpp:4385-4568 | row j holds the (j + 1)-fold GETNEXT of the requested identifiers, and the end of the view exactly where that step has no successor |
| GetBulks.AnswerUnique | src/mib.cpp:3734-3763 | GETNEXT has one answer for each request |
| RequestLocks.Locks.LockIndex | src/request.cpp:666-691 | it finds a slot that needs the entry, itself or as a listener, exactly if there is one |
| RequestLocks.Locks.SetLocked | src/request.cpp:693-732 | which mutexes are acquired how often, and the new slots |
| RequestLocks.Locks.SetUnlocked | src/request.cpp:734-775 | which mutexes are released how often, and the new slots |
| RequestLocks.LockBalance | src/request.cpp:693-732 | locking keeps every needed mutex held exactly once if and only if the entry is not covered yet or brings no new listener |
| RequestLocks.UnlockBalance | src/request.cpp:734-775 | unlocking keeps every needed mutex held exactly once if and only if the entry is not needed as a listener of another locked table |
| RequestLocks.RunBalanced | src/request.cpp:666-775 | if no locked entry listens to another one, exactly the needed mutexes are held, each once, after every prefix of any sequence of calls that locks only empty slots |
| RequestLocks.BalancedExactly | src/request.cpp:666-775 | for any sequence of calls that locks only empty slots, exactly the needed mutexes are held after every prefix if and only if no call locks a covered entry with new listeners or gives up one that a locked table needs |
| RequestLocks.ReleasedTwice | src/request.cpp:734-775 | a listener locked before its table, unlocked in order of indices: its mutex is given up while the table needs it, and then a second time |
| RequestLocks.RequestBalanced | src/request.cpp:666-775 | over any locks of distinct indices followed by unlocks of all of them in any order, each entry and each listener is acquired once and released once, and never given up while it is needed |
| RequestLocks.LockAll | src/mib.cpp:4090-4249 | the calls for one request go through such a run: exactly the needed mutexes are held after each of them, and none in the end |
| SetProtocol.Mib.Prepare | src/mib.cpp:4090-4146 | the first sub-request that fails, its error, and the locks taken up to it |
| SetProtocol.Mib.Commit | src/mib.cpp:4148-4189 | the values and the undo copies after the commits up to the first failure |
| SetProtocol.Mib.Undo | src/mib.cpp:4191-4224 | every copy is written back, none survives, all locks are given up |
| SetProtocol.Mib.CleanupAll | src/mib.cpp:4226-4248 | the values stay, no copy survives, all locks are given up |
| SetProtocol.Mib.ProcessSet | src/mib.cpp:4059-4088 | success if and only if every object exists, is in the view, accepts its value and stores it, else the error of the first sub-request that the prepare phase refuses, else a failed commit; the store it leaves in each case, no copy left and every lock released as often as acquired |
| SetProtocol.Mib.ServeAll | src/mib.cpp:4059-4248 | a run of requests with distinct objects is a run of atomic updates: each is answered with success if and only if the four conditions hold for all its objects, else with the first error, and a successful one assigns all its values at once, a failed one nothing |
| SetProtocol.AtomicExactlyWhenHarmless | src/mib.cpp:434-453 | a request is all-or-nothing for every failing commit if and only if no object is changed and later written again |
| SetProtocol.DistinctHarmless | src/mib.cpp:434-453 | requests with distinct objects are all-or-nothing |
| SetProtocol.ApplyDistinct | src/mib.cpp:4148-4189 | for distinct objects the assignments in turn are one simultaneous assignment |
| RowStatuses.FirstStatus | src/mib.cpp:2431-2488 | the first sub-request for the status of a row |
| RowStatuses.Table.Collect | src/mib.cpp:695-708 | the cells of a row after all assignments of the request |
| RowStatuses.Table.PrepareOld | src/mib.cpp:2633-2693 | exactly when a sub-request for an existing row is accepted, and when its row is marked for deletion |
| RowStatuses.Table.PrepareNew | src/mib.cpp:2412-2631 | exactly when a sub-request creates a row, and which sub-requests it takes along |
| RowStatuses.Table.Prepare | src/mib.cpp:4090-4146 | a request is accepted exactly if each sub-request passes; which sub-requests are done already and which have no lock |
| RowStatuses.Table.AddRow | src/mib.cpp:1650-1712 | a new row holds all values of the request, its last status set last, unless one of the values is not valid |
| RowStatuses.Table.SetValue | src/mib.cpp:1573-1649 | the effect of one sub-request on an existing row, with the promotion of a complete row |
| RowStatuses.Table.CommitOne | src/mib.cpp:1573-1713 | one commit follows the fold of the row's sub-requests, or it fails for one of the two stated reasons |
| RowStatuses.Table.Commit | src/mib.cpp:4148-4189 | the commits succeed exactly if all values are valid and every status of a new row is its last one or the first sub-request for it; then every row is what its own sub-requests make of it |
| RowStatuses.Table.ProcessSet | src/mib.cpp:2633-2714 | exactly when a request is refused, fails to commit or is done, which is decided row by row; when done, statuses keep telling whether the values of rows are acceptable if and only if the request is safe for every row, and no row in use becomes notReady |
| RowStatuses.OldRowFollows | src/mib.cpp:1573-1649 | an existing row during the commits, with any number of statuses: its status is the last one stored, and its values are the old ones or those of a new row, overlaid by the request |
| RowStatuses.OldRowSound | src/mib.cpp:631-743 | an existing row is sound after the request exactly if, should it have been destroyed and created again with a status in use, the request completes a new row |
| RowStatuses.NewRowSound | src/mib.cpp:2412-2631 | a created row is sound exactly if its last stored status is not in use or the assignments complete a new row |
| RowStatuses.RequiredGiven | src/mib.cpp:2239-2291 | in every run of safe requests all rows in use have been given all required columns, if and only if no required column has an acceptable initial value or the rest of a row cannot be made acceptable |
| RowStatuses.NeverSet | src/mib.cpp:1699-1707 | createAndWait, values for other columns, active: a run to an active row whose required column was never set |
| RowStatuses.ReadyOverlay | src/mib.cpp:2239-2291 | acceptable values keep a complete row complete |
| RowStatuses.OneStep | src/mib.cpp:753-797 | a request with one status for each row is safe and takes each row through its step; a destroyed row comes back, with the status destroy, exactly if a later sub-request names it, which only a row that was active allows, or one that has come back before |
| RowStatuses.TwoStatuses | src/mib.cpp:1654-1682 | createAndWait and active for one new row make every incomplete row active |
| RowStatuses.Revived | src/mib.cpp:1609-1621 | destroy and active for one active row leave it active with the values of a new row, however incomplete |
| RowTables.StatusTable | src/mib.cpp:2412-2714 | for a request that names the status of a row once, with any other sub-requests: the row is done if and only if its values can be stored, the voters agree, and its old status, the new status and the final values are as in section 2 of RFC 2579; and what row results |
| RowTables.ValuesOnly | src/mib.cpp:1573-1649 | values without a status never create a row; for an existing row exactly the acceptable ones are stored, and a notReady row that they complete becomes notInService |
| RowTables.ServeRow | src/mib.cpp:2412-2714 | the same as the outcome of a whole request for one row |
| LockQueues.StepKeeps | src/threads.cpp:1412-1511 | every step of every thread keeps the invariant of the queue |
| LockQueues.AnsweredOnce | src/threads.cpp:1412-1487 | a request is either unanswered and in exactly one place, or answered once |
| LockQueues.NoLostWakeup | src/threads.cpp:1370-1378 | when the queue thread notifies, the requester is waiting and wakes up |
| LockQueues.ReleasesFirst | src/threads.cpp:1417-1429 | no lock is granted in a pass while a release is pending |
| LockQueues.FirstComeFirstServed | src/threads.cpp:1430-1470 | a target that only the queue locks is granted in the order of arrival |
| LockQueues.OvertakenOutside | src/threads.cpp:1430-1470 | for every target that others lock as well, a reachable state in which a later request overtakes |
| LockQueues.InOrderExactlyIfInternal | src/threads.cpp:1430-1470 | a target is granted in the order of arrival in all reachable states if and only if only the queue locks it |
| LockQueues.OneHolder | src/threads.cpp:1436-1450 | a lock has at most one holder |
| LockQueues.KeptUntilReleased | src/threads.cpp:1417-1424 | only the release of its holder takes a lock away |
| LockQueues.NeverStuck | src/threads.cpp:1412-1511 | while a request is open and the queue has not stopped, the queue thread or the requester can go on |
| LockQueues.PassEnds | src/threads.cpp:1412-1487 | between two wakeups the queue thread takes at most as many steps as a rank of the state tells, and then waits again, whatever the others do |
| LockQueues.ReleaseBounded | src/threads.cpp:1412-1487 | in every run a release is answered, once, within three steps of the queue thread for each pending release and five more |
| LockQueues.StopsEmpty | src/threads.cpp:1415-1487 | the queue thread stops only after every request has been answered |
| LockAnswers.LockedExactlyIfGranted | src/threads.cpp:1436-1463 | in every run a request is marked as locked if and only if some step has given its target to the queue on its behalf |
| LockAnswers.AnswerMeans | src/threads.cpp:1412-1473 | an answered requester that is willing to wait has been granted its lock; an answered release has given the lock back |
| LockAnswers.Attempt | src/threads.cpp:1430-1473 | an attempt locks a free target, refuses a requester that does not wait, and puts any other back behind the rest |
| LockAnswers.GivenBack | src/threads.cpp:1417-1424 | a release frees exactly its target, which its holder held |
| LockAnswers.TriedBounded | src/threads.cpp:1412-1473 | in every run each pending request is tried within three steps of the queue thread for each lock held and six for each request pending |
| LockAnswers.ImpatientBounded | src/request.cpp:1022-1037 | in every run a request that must not wait is answered, once, within the first pass that tries it: within three steps of the queue thread for each lock held and each request pending |
| LockAnswers.StopsExactly | src/threads.cpp:1415-1487 | after the shutdown the waiting queue thread may stop if and only if every request has been answered |
| ThreadPools.StepPlaces | src/threads.cpp:1286-1348 | no step loses or doubles a task |
| ThreadPools.OnePlaceOneRun | src/threads.cpp:1286-1348 | across all interleavings a submitted task is in one place and starts at most once |
| ThreadPools.MonitorExclusive | src/threads.cpp:1286-1348 | the pool monitor has one owner at a time, although assign drops it |
| ThreadPools.NeverStuck | src/threads.cpp:1094-1146 | while a submitted task has not finished, some thread can take a step |
| ThreadPools.FinishedByTwo | src/threads.cpp:1094-1121 | in every run a task given to a manager is finished, once, by two steps of the manager's thread |
| Handovers.Looks | src/threads.cpp:1286-1320 | a thread that finds an idle manager goes to set its task there, passes a busy one, and queues the task behind the last |
| Handovers.QueueStep | src/threads.cpp:1286-1348 | the queue is first in, first out, and only the hand of the thread that takes the step adds to it |
| Handovers.QueuedIfAllBusy | src/threads.cpp:1286-1320 | in every run a thread queues its task only after it has found each manager with a task, when it looked or when it wanted to set its own |
| Handovers.HandedOver | src/threads.cpp:1286-1335 | in every run in which no other thread gives a certain idle manager a task, the task in hand is with a manager after three own steps for each manager up to that one |
| Handovers.HandedOverAlone | src/threads.cpp:1286-1335 | so it is if no other thread is in assign |
| VacmAccess.ScanStart | src/vacm.cpp:432-438 | starting the scan at lookup(groupIndex) skips no candidate |
| VacmAccess.Replaces | src/vacm.cpp:488-528 | the nested comparisons are the order model, exact context, prefix length, security level |
| VacmAccess.PreferredTotal | src/vacm.cpp:488-528 | two different candidates are never equally good |
| VacmAccess.GetViewName | src/vacm.cpp:410-565 | the view of the row that fits the request and is better than every other such row of the table in the order of section 4 of RFC 3415, and none exactly if no row fits |
| VacmAccess.BestUnique | src/vacm.cpp:410-565 | no other row can be the best |
| VacmViews.IndexInjective | src/vacm.cpp:919-921 | different views or subtrees have different indexes |
| VacmViews.Table.AddNewRow | src/vacm.cpp:914-939 | a new family enters table and index, behind the other families of its view; an existing one is refused |
| VacmViews.Table.DeleteRow | src/vacm.cpp:962-971 | a family leaves table and index, and nothing else does |
| VacmViews.InFamily | src/vacm.cpp:834-842 | the masked comparison of an identifier with a subtree, the first bit of an octet being the most significant |
| VacmViews.IsInMibView | src/vacm.cpp:801-878 | noSuchView exactly if the table has no family of the name; otherwise the verdict of the longest matching family, the last added of equally long ones |
| VacmViews.Longest | src/vacm.cpp:820-860 | the scan over a view finds its longest matching family, the last of equally long ones, and none exactly if none matches |
| VacmViews.OverlapIsShared | src/vacm.cpp:834-842 | families of equal length share an identifier exactly if wherever they differ one of the masks does not care |
| VacmViews.StandardExactlyWhenAscending | src/vacm.cpp:843-859 | for all identifiers and after any deletions the family chosen is that of RFC 3415, if and only if no family overlaps an equally long one that was added before it and has a greater subtree |
| VacmViews.WrongChoice | src/vacm.cpp:843-859 | for any such pair, deletions and an identifier for which the code and RFC 3415 choose differently |
| VacmViews.OverlappingFamilies | src/vacm.cpp:843-859 | such families exist, with different verdicts |
| NotificationLogs.RowsInOrder | src/notification_log_mib.cpp:1414-1428 | rows of different logs are ordered by log, so that the rows of a log are contiguous |
| NotificationLogs.Log.RemoveRow | src/notification_log_mib.cpp:1102-1117 | a removed row leaves table and list, and the bumped counter follows |
| NotificationLogs.Log.AddRow | src/notification_log_mib.cpp:1287-1300 | a new row gets the next number of its log and is the last in the list |
| NotificationLogs.Log.AddNotification | src/notification_log_mib.cpp:1193-1333 | a row of the old and new ones stays if and only if it is within the global limit, young enough and within the limits of its log; the numbers given out and the rows logged and bumped follow |
| NotificationLogs.Log.EvictGlobal | src/notification_log_mib.cpp:1337-1357 | the global limit keeps the youngest rows |
| NotificationLogs.Log.EvictOld | src/notification_log_mib.cpp:1359-1402 | the age limit drops rows up to the first that is young enough |
| NotificationLogs.Log.CountRows | src/notification_log_mib.cpp:1414-1428 | the scan from lookup to the first greater log counts all rows of the log |
| NotificationLogs.Log.EvictLog | src/notification_log_mib.cpp:1430-1472 | the limit of a log drops exactly the excess of its oldest rows and no row of another log |
| NotificationLogs.OldestFirst | src/notification_log_mib.cpp:1465-1469 | the first row of a log in index order is its oldest one |
| NotificationLogs.NewRowsExactly | src/notification_log_mib.cpp:1233-1327 | a notification adds one row to each configured log that accepts it, with the number behind the last one of the log |
| NotificationLogs.KeptExactly | src/notification_log_mib.cpp:1335-1473 | a row stays if and only if no more rows than the global limit allows come from it on, it is young enough, and no limit of its log is less than the rows of the log from it on |
| NotificationLogs.WithinLimits | src/notification_log_mib.cpp:1335-1473 | after the check the whole log, the age of its rows and every configured log are within their limits |
| NotificationLogs.NothingLost | src/notification_log_mib.cpp:1335-1473 | a log within all limits loses nothing |

## Left out

- GetBulks.Request.Truncated: `Pdu::trim` belongs to SNMP++ and is not part of this model; it is taken to remove a row, or what is left of one. The second truncation, when sending fails, is not modelled.
- GetNexts.GetNext: access-control errors other than notInView, proxies and AgentX entries are not part of this model.
- RowStatuses.Table.ProcessSet: when a commit fails, nothing is said about the rows; the undo phase and `snmpRowStatus::unset` are not modelled. A `set` that a subclass overrides to fail is not modelled either.
- NotificationLogs.Log.AddNotification: clock and counters do not wrap, and log configurations are not removed; the per-log statistics and the variable table are not modelled.
- SetProtocol.Mib.ProcessSet: the objects are scalars; tables are in `RowStatuses`.
- ThreadPools.OnePlaceOneRun: shutdown, which deletes a task that has not started, and one-time execution are not modelled.
- `init_rep_row` for rows that already exist and sub-requests that are done before the loops start do
  not occur in a request that is processed once.
- `MibTable::find_prev`, tables whose rows differ in size, and nested or overlapping registrations.
- `Vacm::clear` and the view index under SNMP sets of the row status.
- src/mib_avl_map.cpp, a second copy of the tree algorithm.
- Freeing memory, sockets, BER encoding, persistence, logging and generated leaf classes.
