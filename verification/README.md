# Verified models of the SCTP application library

The repository holds the support library and tools of the SCTP reference implementation's applications. This
project models its data structures and algorithms in Dafny and proves what they promise. `dafny verify dfyconfig.toml`
checks everything.

| module | models |
|---|---|
| PrimeSizes, HashChains, HashedTable | the chained hash table with resizing, scan cursor and saved positions, as a heap of nodes |
| ScanSpec, ScanFacts, ScanRuns, MarkRuns | scans as an index into a sequence with marks: scanning and saved positions over every run |
| TableRuns, TableScans | the same runs on the table object |
| RemovedMarkers, EndMarkers | saved positions whose entries are removed, and positions saved at the end |
| DlistSpec, Dlist, DlistRuns | the doubly linked list with a cursor: sequence, heap, runs |
| Hlist | the same list with a hash index |
| SubscriberSpec, SubscriberRuns, SubscriberLists | subscriber lists by precedence |
| Routing, Distributor, DistributorRuns | message delivery over the lists of each protocol and stream |
| WheelSpec, WheelRuns, TimerWheel | the timer wheel with its index of live timers |
| CrcBits, WordBits, CrcModel, CrcTable, SctpCsum | the three forms of CRC32c |
| RateSpec, RateLimiter | the connection rate limiter of inetd |
| InetdChildren | child accounting and the set of watched sockets of inetd |
| InetSpec, Inet6Spec, InetPton | the IPv4 and IPv6 text readers |
| MemCheck, MemRuns | the checking allocator, and the programs that use it |
| EleAggregator | the join of two measurement files |
| SeqFacts | bytes and sequences |

The pattern is the same throughout. A module of pure functions says what a structure is (a finite map, a sequence with
a cursor, sorted buckets, a polynomial remainder, a grammar, a count over a log). Classes and methods written with the
source's fields, links, loops and branches are tied to those functions by their contracts. Lemmas about the functions,
mostly by induction over runs, prove what the source promises. An `abort()` or "should not happen" branch of the source
is written as a branch with `assert false`: it is proved unreachable.

Where the code and its own documentation disagree, the model follows the code:

- `APPS/baselib/HashedTbl.h` says that a saved position stays good when its entry is removed, because the marker is
  adjusted. `RemovedMarkers.ReturnAfterRemoval` says exactly when that holds: the scan cursor must have stood on the
  removed entry, or the entry must have been the last of its bucket. Moreover the mark of the next entry is overwritten,
  so that a position saved there is lost. `MarkRuns.MarkerComesBack` is the condition over whole runs.
- A position saved at the end of a table does not always lead back there. The save leaves the handle of the marker as it
  was, and a return without a handle does not clear the node pointer of the cursor. `EndMarkers.SaveRunReturn` says
  exactly when the end comes back, for every marker and every run in between: with handle zero when the node pointer is
  not set, with a handle from before when no entry of the last bucket carries it. `EndLost`, `EndTaken` and
  `EndRegained` are runs that go the other way.
- `HashedTbl_isPrime` takes 0 and 1 for primes.
- `APPS/baselib/distributor.h` says that a message left by its stream's list goes on to the default stream of the
  protocol, to the table of protocol 0, which also serves protocols that are not found, and to the general default list.
  The code consults the first list that is there and the general default list only.
  `Distributor.DistributorT.RoutedAsDocumented` says exactly which messages see the lists documented all the same;
  `DistributorRuns.UnknownProtocol` and `DistributorRuns.SkippedDefault` are messages that do not. (Further up the same
  header describes the lookup as the code does it.)
- `dlist_backUpOne` at the end of a list goes to the first entry, not to the last.
- `inet_pton6` refuses `::` in a full address; its comment says that it is ignored.
- A check of the timer wheel that passes the end of an hour scans nothing. Timers it should have fired in the rest of
  the old hour wait until their slot in the new one.
- `addchild` in `APPS/inetd/inetd.c` is meant to stop a service at its limit. The main loop serves sockets that were
  found readable before a new configuration was read, so that a service already at its limit can get one child more.
- `memcheck_malloc` hands out blocks that are too short for requests near the limit of `size_t`, where the sums wrap
  around.
- The rate limiter never rejects in the first six ticks of the epoch, where its unsigned lower bound wraps around.

## Model

| member | source | states |
|---|---|---|
| `PrimeSizes.IsPrime` | APPS/baselib/HashedTbl.c:531-548 | Trial division up to the square root says yes exactly for the primes and for every number below 2. |
| `PrimeSizes.SmallDivisor` | APPS/baselib/HashedTbl.c:537-546 | Why stopping at the square root is enough: a number with a divisor has one that is no greater than its root. |
| `PrimeSizes.GetOptSize` | APPS/baselib/HashedTbl.c:574-590 | The least number from the suggestion on that passes for a prime, or the suggestion itself when there is none below MAXPRIME. |
| `HashChains.BucketIsRemainder` | APPS/baselib/HashedTbl.c:165-170 | The recursive bucket function is the remainder that the code computes. |
| `HashChains.FlatDistinct` | APPS/baselib/HashedTbl.c:139-182 | Over the whole table, all chains put together, no key occurs twice. |
| `HashChains.InsertKeepsProper` | APPS/baselib/HashedTbl.c:165-182 | Hanging an unbound entry at the head of its chain keeps every entry in the chain of its key and adds exactly that binding. |
| `HashChains.RemoveKeepsProper` | APPS/baselib/HashedTbl.c:459-469 | Unlinking an entry keeps the chains proper and takes exactly its binding out. |
| `HashChains.BoundInChain` | APPS/baselib/HashedTbl.c:365-400 | A key that is bound at all is bound by an entry in the one chain that a lookup walks. |
| `HashChains.NegativeUnbound` | APPS/baselib/HashedTbl.c:347-403 | No negative key is ever bound, whatever chain a lookup takes it to. |
| `HashedTable.HashedTbl.constructor` | APPS/baselib/HashedTbl.c:74-104 | A new table is valid and empty, with the scan at the start and at least twice as many buckets as entries suggested. |
| `HashedTable.HashedTbl.Rewind` | APPS/baselib/HashedTbl.c:55-60 | The cursor becomes position 0 of the flattened table. |
| `HashedTable.HashedTbl.LookupKeyed` | APPS/baselib/HashedTbl.c:347-403 | Lookup answers exactly as the finite map of bindings does, for present, absent and negative keys. |
| `HashedTable.HashedTbl.EnterBucket` | APPS/baselib/HashedTbl.c:139-182 | Entering fails for a negative key and for a bound one and changes nothing then; otherwise it adds the one binding, growing the table first exactly when the load asks for it. |
| `HashedTable.HashedTbl.EnterKeyed` | APPS/baselib/HashedTbl.c:271-326 | The same for a new node. Without a resize it becomes the head of its bucket, no other mark word changes, and the entry that comes next in the scan stays the same unless the new one is put just before it. |
| `HashedTable.InsertKeepsNext` | APPS/baselib/HashedTbl.c:165-182 | A new entry comes next in the scan exactly when its bucket is one the scan has yet to come to, with no entry before it there; otherwise the entry that came next still does. |
| `HashedTable.HashedTbl.Hang` | APPS/baselib/HashedTbl.c:165-181 | The linking step itself: new head of its bucket, all other links as they were. |
| `HashedTable.HashedTbl.RemoveKeyed` | APPS/baselib/HashedTbl.c:420-515 | Removing returns the data bound and takes out that binding and that entry of its chain and of the scan order only; the cursor keeps its place among the rest, never stays on the removed node, and a mark word moves on to the next node of the chain exactly when the cursor stood on the removed one. |
| `HashedTable.HashedTbl.RemoveFound` | APPS/baselib/HashedTbl.c:456-498 | The unlinking step with the cursor and mark moved off the node. |
| `HashedTable.RemoveMovesCursor` | APPS/baselib/HashedTbl.c:459-491 | In terms of positions: taking out an entry before the cursor moves it back by one, any other leaves it, and the node pointer never leads to the removed node. |
| `HashedTable.InsertMovesCursor` | APPS/baselib/HashedTbl.c:165-181 | A new head of a bucket behind the cursor moves the position on by one, any other leaves it. |
| `HashedTable.FlatHoused` | APPS/baselib/HashedTbl.c:674-731 | The flattened table is in the order of the buckets, each entry in the bucket of its key. |
| `HashedTable.SameChain` | APPS/baselib/HashedTbl.c:690-725 | The next entry of the scan is in the same bucket exactly when the chain goes on. |
| `HashedTable.HashedTbl.ViewIsAScan` | APPS/baselib/HashedTbl.c:674-731 | Every valid table is a scan state to which the theorems about scans and saved positions apply: distinct entries in the order of their buckets, the cursor within them, each with its mark word. |
| `HashedTable.HashedTbl.SearchNext` | APPS/baselib/HashedTbl.c:674-731 | Returns the entry at position p and moves to p + 1; at the end returns none and stays. |
| `HashedTable.HashedTbl.SearchPrev` | APPS/baselib/HashedTbl.c:1106-1176 | Moves to p - 1 and returns that entry; at the start returns none and stays. |
| `HashedTable.HashedTbl.GetNext` | APPS/baselib/HashedTbl.c:594-671 | Takes out and returns the first entry of the buckets from the cursor on, of the map as of the scan order; between entries that is the entry at the cursor. The cursor keeps its position or is lost, and it is lost exactly when it stood inside a chain and the bucket counter moved. |
| `HashedTable.HashedTbl.GetHandle` | APPS/baselib/HashedTbl.c:978-990 | Handles run from 1 to 65535 and then start over. |
| `HashedTable.HashedTbl.SavePostion` | APPS/baselib/HashedTbl.c:992-1043 | Saves the entry at the cursor: its count goes up by one, it gets a handle if it had none, and the marker records handle, bucket and capacity. At the end nothing is marked, and the marker keeps the handle it had. |
| `HashedTable.HashedTbl.ReturnToPostion` | APPS/baselib/HashedTbl.c:1045-1102 | A marker from another capacity is refused. With a handle the cursor goes to the first entry of the marker's bucket that carries it, which loses one count, or past the bucket if there is none; without one it goes to the end exactly when it holds on to no entry. |
| `HashedTable.BackToBucket` | APPS/baselib/HashedTbl.c:1063-1101 | Searching one bucket for a handle finds what searching the whole scan order for an entry of that bucket with that handle finds. |
| `EndMarkers.SaveRunReturn` | APPS/baselib/HashedTbl.c:1017-1102 | Exactly when the end of a table comes back: for any marker, used before or not, saved at the end, any run of scan steps, saves, returns and removals after it, and a return. With handle zero, when the cursor holds on to no entry; with an old handle, when no entry of the last bucket carries it. |
| `EndMarkers.EndLost` | APPS/baselib/HashedTbl.c:1057-1062 | A run that loses the end with a new marker: the scan has gone on to an entry and holds on to it when it returns. |
| `EndMarkers.EndTaken` | APPS/baselib/HashedTbl.c:1038-1042 | A run that loses the end with a marker used before, although the cursor holds on to nothing: the entry whose handle the marker has kept is in the last bucket. |
| `EndMarkers.EndRegained` | APPS/baselib/HashedTbl.c:1017-1102 | A run in which the end comes back although the cursor holds on to an entry, since the marker has kept the handle of an entry in another bucket. |
| `RemovedMarkers.InItsChain` | APPS/baselib/HashedTbl.c:462-485 | In the chain of a removed entry a marker is adjusted exactly when its own entry was removed from under the cursor or was the last of the chain, or when it is for another entry than the one the removed entry's mark is copied to; otherwise the search finds nothing. |
| `RemovedMarkers.ReturnSpot` | APPS/baselib/HashedTbl.c:462-485 | Over the whole table: a return after a removal comes to the marker's entry, or to the one that followed it if it was removed, exactly when the marker was adjusted; otherwise it comes to the end of the bucket. |
| `RemovedMarkers.ReturnAfterRemoval` | APPS/baselib/HashedTbl.h:245-249 | The promise of the header, for any table, marker and removal: exactly when it holds, and that the rest of the bucket is skipped when it does not. In particular a position saved at the next entry is lost when its mark is overwritten. |
| `RemovedMarkers.SkipsTheRest` | APPS/baselib/HashedTbl.h:245-249 | A failing table: of three entries in one bucket the first, whose position was saved, is removed after the scan has moved on; back at the saved position the scan ends with two entries still to come. |
| `HashedTable.HashedTbl.GrownSize` | APPS/baselib/HashedTbl.c:186-230 | The first candidate size already suffices, so the retry loop of the source never has to continue. |
| `HashedTable.HashedTbl.Rehash` | APPS/baselib/HashedTbl.c:239-268 | Moving every entry to the new buckets keeps all bindings and the count, leaves no stray and clears all marks. |
| `HashedTable.HashedTbl.ReSize` | APPS/baselib/HashedTbl.c:185-268 | A resize at least triples the buckets, keeps the map and the count, restarts the handles and never resizes again on the way. |
| `HashedTable.HashedTbl.AuditTable` | APPS/baselib/HashedTbl.c:1178-1206 | The count kept always equals the nodes linked, so the audit always succeeds. |
| `ScanRuns.ScanStaysOnTrack` | APPS/baselib/HashedTbl.c:420-515 | From a rewound table, over any mixture of next and removals: what is left is what was never removed, and what lies before the cursor is what was returned and not removed since. |
| `ScanRuns.ScanIsComplete` | APPS/baselib/HashedTbl.c:674-731 | When such a scan ends, every entry present throughout was returned exactly once, in table order. |
| `ScanRuns.NeverAfterRemoval` | APPS/baselib/HashedTbl.c:420-515 | No step returns an entry after its removal. |
| `ScanRuns.PlainScan` | APPS/baselib/HashedTbl.c:674-731 | Without removals n steps return the first n entries, and after the last one nothing. |
| `TableScans.ScanWhileRemoving` | APPS/baselib/HashedTbl.c:420-731 | The same for the table object: over any run of next and removals by key from its start, no entry is reported twice and none after its removal, and once the scan has come to the end, every entry never removed has been reported, in table order. |
| `MarkRuns.ReturnIs` | APPS/baselib/HashedTbl.c:1045-1102 | A return to a position whose mark is not lost goes to where it stands and takes one count off the entry there; to one whose mark is lost, past its bucket. |
| `MarkRuns.ReturnAgrees` | APPS/baselib/HashedTbl.c:1045-1102 | A return keeps marks and outstanding positions in agreement. |
| `MarkRuns.RemoveAgrees` | APPS/baselib/HashedTbl.c:456-498 | So does a removal: positions lose their mark exactly when they are at the removed entry and the cursor is not, or at the entry after it that gets its mark. |
| `MarkRuns.EveryRunAgrees` | APPS/baselib/HashedTbl.c:978-1102 | Over every run of scan steps, saves, returns and removals with fewer than 65536 saves the count of an entry is the number of positions there that have not lost their mark, and different entries carry different handles. |
| `MarkRuns.MarkerComesBack` | APPS/baselib/HashedTbl.h:245-249 | Exactly when a marker comes back, after every such run and for every position outstanding: when it has not lost its mark, or when nothing of its bucket is left from where it should lead. |
| `MarkRuns.RestFollows` | APPS/baselib/HashedTbl.c:978-1102 | Where a position should lead: through every operation the entries still to come there stay the same, but for the one removed. |
| `MarkRuns.MarkCleared` | APPS/baselib/HashedTbl.c:1066-1077 | A return clears the mark of an entry exactly when no other position that has its mark stands there. |
| `MarkRuns.SavedPositionComesBack` | APPS/baselib/HashedTbl.c:978-1102 | Save, any run without removals, return: the scan is back where it was at the save. |
| `MarkRuns.ComesBackIff` | APPS/baselib/HashedTbl.c:992-1102 | After every run with any number of saves, a return goes where the position stands exactly when no entry of its bucket before it carries the handle, and either the entry there does, or none from there on does and none from there on is of the bucket. |
| `MarkRuns.HandlesRunRound` | APPS/baselib/HashedTbl.c:978-990 | The bound on saves cannot be raised: a run with 65536 saves from an unmarked table of two entries of one bucket, after which a return goes to the wrong entry. |
| `TableRuns.RemovalIs` | APPS/baselib/HashedTbl.c:456-498 | A removal from the chains is one from the scan: cursor, marks and hold move alike. |
| `TableRuns.Scanner.TakeOut` | APPS/baselib/HashedTbl.c:420-515 | A removal by key on the table object does to scan and saved positions what the removal of that entry does to them, and nothing if the key is not bound. |
| `TableRuns.Scanner.Run` | APPS/baselib/HashedTbl.c:420-1170 | Over every run of searchNext, searchPrev, rewind, saves, returns and removals by key on the table object, the table and its markers are what the run makes of the scan, and each step reports what the scan says. |
| `TableRuns.Scanner.RunThenReturn` | APPS/baselib/HashedTbl.h:245-249 | The exact condition for a marker to come back, on the table object after every such run with fewer than 65536 saves. |
| `Dlist.DlistT.Get` | APPS/baselib/dlist.c:178-210 | Returns the entry at the cursor and moves on; past the end returns nothing. |
| `Dlist.DlistT.GetNext` | APPS/baselib/dlist.c:78-131 | Takes the first entry off, with the cursor kept on its entry; on an empty list clears a passed end. The sanity aborts cannot be reached. |
| `Dlist.DlistT.GetThis` | APPS/baselib/dlist.c:213-287 | Takes off the entry given out last, or the first. The sanity aborts cannot be reached. |
| `Dlist.DlistT.ReplaceThis` | APPS/baselib/dlist.c:289-326 | Replaces the entry given out last, or the first, and returns it. |
| `Dlist.DlistT.Reset` | APPS/baselib/dlist.c:396-402 | The cursor goes to the first entry. |
| `Dlist.DlistT.Insert` | APPS/baselib/dlist.c:405-436 | Puts an entry in front; the cursor stays on its entry. |
| `Dlist.DlistT.Append` | APPS/baselib/dlist.c:438-481 | Puts an entry at the end; a cursor past the end stays past it. |
| `Dlist.DlistT.InsertHere` | APPS/baselib/dlist.c:525-611 | Puts an entry just before the one given out last. |
| `Dlist.DlistT.AppendHere` | APPS/baselib/dlist.c:613-667 | Puts an entry just after the one given out last exactly when the cursor is not on the first entry; otherwise the list is broken: the head gets a predecessor, the count is one too high, and no forward link leads to the new entry. |
| `Dlist.DlistT.HeadHasNoPrev` | APPS/baselib/dlist.c:613-667 | A list in order has no node before its head, so that the outcome above is a broken list. |
| `Dlist.DlistT.GetToTheEnd` | APPS/baselib/dlist.c:669-676 | The cursor goes to the last entry. |
| `Dlist.DlistT.BackUpOne` | APPS/baselib/dlist.c:679-695 | One entry back; from past the end it goes to the first entry, not to the last. |
| `Dlist.DlistT.LookLastOne` | APPS/baselib/dlist.c:698-707 | The last entry, without moving. |
| `Dlist.BridgedLinks` | APPS/baselib/dlist.c:256-271 | Linking around a node leaves a list of the other nodes in order. |
| `Dlist.HookedLinks` | APPS/baselib/dlist.c:596-604 | Hooking a node in between two neighbours leaves a list with it in place. |
| `DlistRuns.RunIsUndisturbed` | APPS/baselib/dlist.c:178-287 | However a run removes, inserts, appends and replaces around entries it has been given, it is given exactly what was still to come at its start, in order, and then nothing. |
| `DlistRuns.FullPass` | APPS/baselib/dlist.c:178-210 | After a reset reading gives every entry in order and then nothing. |
| `DlistRuns.RemoveWhatWasTaken` | APPS/baselib/dlist.c:213-287 | Reading and then removing gives the same entry and takes just that one off. |
| `DlistRuns.AppendUndone` | APPS/baselib/dlist.c:613-667 | Removing takes back what was just appended at the cursor exactly when an entry had been given out, or the list was empty, or the head equals the new entry. |
| `DlistRuns.ReplaceIsRemoveInPlace` | APPS/baselib/dlist.c:289-326 | Replacing returns what removing would, and is removing and putting in at that place. |
| `DlistRuns.EndIsSticky` | APPS/baselib/dlist.c:194-196 | Past the end nothing more is given out, whatever is put in or taken out, until the cursor is repositioned. |
| `DlistRuns.Drained` | APPS/baselib/dlist.c:78-131 | Emptying from the front gives the entries in order; a passed end survives it and is cleared only by one more call. |
| `Hlist.HlistT.Agree` | APPS/baselib/hlist.c:985-1026 | What the audit looks for: the list, the index and the counter have the same size, the same entries and no entry twice. |
| `Hlist.IndexedSize` | APPS/baselib/hlist.c:994-1005 | An index of just the list's own nodes has as many entries as the list. |
| `Hlist.HlistT.IsItInTheList` | APPS/baselib/hlist.c:405-419 | The index answers for the list. |
| `Hlist.HlistT.GetNext` | APPS/baselib/hlist.c:101-158 | As for the plain list, and the index forgets the entry. |
| `Hlist.HlistT.GetThis` | APPS/baselib/hlist.c:282-359 | As for the plain list, and the index forgets the entry. |
| `Hlist.HlistT.PullThis` | APPS/baselib/hlist.c:361-403 | An entry found through the index is taken off wherever the cursor is; a cursor on it goes to the next entry or past the end. |
| `Hlist.HlistT.MoveToThis` | APPS/baselib/hlist.c:421-437 | The cursor goes to an entry found through the index, or nothing happens. |
| `Hlist.HlistT.ReplaceThis` | APPS/baselib/hlist.c:481-527 | The list and the index still agree exactly when the new entry was not there already in another place. |
| `Hlist.HlistT.Insert` | APPS/baselib/hlist.c:609-642 | The list and the index still agree exactly when the entry was not there already. |
| `Hlist.HlistT.Append` | APPS/baselib/hlist.c:644-694 | Appends an entry that is not there, and refuses one that is. |
| `Hlist.HlistT.InsertHere` | APPS/baselib/hlist.c:745-838 | Puts an absent entry before the one given out last, and refuses one that is there. |
| `Hlist.HlistT.AppendHere` | APPS/baselib/hlist.c:840-901 | Refuses an entry that is there, and puts an absent one after the one given out last exactly when the cursor is not on the first entry; otherwise the list half is broken as for the plain list, and the index holds an entry that no forward link leads to. |
| `Hlist.HlistT.Run` | APPS/baselib/hlist.c:985-1026 | Over every run of calls that use `insert` and `replaceThis` only for absent entries and `appendHere` only off the first entry, the list is what the sequence operations make of it, the list and the index agree, and no entry occurs twice. |
| `DlistRuns.PulledFromUnderTheCursor` | APPS/baselib/hlist.c:375-380 | In any list, pulling an entry moves the cursor past the end exactly when it stood on that entry and the entry was the last; then, and only then, an entry appended next is not given out after what was left. The two destructive reads never move a cursor past the end. |
| `SubscriberSpec.PlacedSorted` | APPS/baselib/distributor.c:773-790 | Placing keeps a list sorted by precedence. |
| `SubscriberSpec.PlacedLevel` | APPS/baselib/distributor.c:773-790 | A new subscriber comes last among those of its precedence, and no others change places. |
| `SubscriberSpec.PulledSorted` | APPS/baselib/distributor.c:806-827 | Pulling keeps a list sorted. |
| `SubscriberSpec.PlacedOnly` | APPS/baselib/distributor.c:953-965 | Placing on the list of all subscribers and on the list of one key keeps the second the part of the first for that key. |
| `SubscriberSpec.PulledOnly` | APPS/baselib/distributor.c:975-990 | So does pulling from both. |
| `SubscriberSpec.FirstOnly` | APPS/baselib/distributor.c:975-996 | A request finds the same subscriber on both lists. |
| `SubscriberRuns.EveryRunIsSorted` | APPS/baselib/distributor.c:773-827 | After any run of subscriptions and unsubscriptions the list is sorted by precedence and, at each precedence, in the order of registration, of exactly the registrations still in force. |
| `SubscriberRuns.OneStableSort` | APPS/baselib/distributor.c:773-790 | Only one list is sorted so, and the run theorem therefore determines it. |
| `SubscriberLists.PlaceMcInDlist` | APPS/baselib/distributor.c:773-790 | The walk over the linked list puts the subscriber before the first of greater precedence. |
| `SubscriberLists.PullFromDlist2` | APPS/baselib/distributor.c:806-827 | The walk takes off the first subscriber the request names; the abort cannot be reached. |
| `SubscriberLists.DistributeMsgOList` | APPS/baselib/distributor.c:1457-1502 | Without round robin the subscribers are called in list order, each once, up to and including the first that consumes the message. |
| `SubscriberSpec.OfferedPrefix` | APPS/baselib/distributor.c:1464-1502 | The subscribers called are a prefix of the list, the one prefix of which all but the last called left the message unconsumed and the last, unless it is the last of the list, consumed it; the message is passed from each to the next. |
| `Distributor.DistributorT.constructor` | APPS/baselib/distributor.c:88-293 | A new distributor has only the empty general default list. |
| `Distributor.DistributorT.FindOrAdd` | APPS/baselib/distributor.c:877-950 | Finds the list of a protocol and stream or adds an empty one, which changes nobody's subscribers. |
| `Distributor.DistributorT.MsgSubscribe` | APPS/baselib/distributor.c:830-965 | The list of the key, and the list of all unless it is the general default, get the subscriber in its place; no other key changes. |
| `Distributor.DistributorT.MsgUnsubscribe` | APPS/baselib/distributor.c:968-1010 | Ends the subscription the request finds, reports whether there was one, and changes no other key; the two lists never disagree about whom it means, so the abort cannot be reached. |
| `Distributor.DistributorT.SendMessage` | APPS/baselib/distributor.c:1506-1555 | The stream's list, or else the default stream of the same protocol, sees the message first; the general default list sees it after that if it is not consumed and was not that list; that is what the header says exactly under the condition below; the buffer is freed exactly if it is still there and may be taken. |
| `Distributor.DistributorT.RoutedAsDocumented` | APPS/baselib/distributor.h:573-590 | Exactly when a message is offered to the lists its header names, in their order: its protocol is 0 or its stream the default one, or the first list found consumes it, or nobody is on the lists left out, which are those of protocol 0 and the stream and, if the stream's list was found, of the protocol's default stream. |
| `Routing.MiddleLeftOut` | APPS/baselib/distributor.h:573-590 | Leaving the middle one of three lists out changes whom a message is offered to exactly when somebody is on it and the first list leaves the message. |
| `DistributorRuns.UnknownProtocol` | APPS/baselib/distributor.h:384-389 | A failing run: a message for a protocol nobody subscribed to is not offered to the subscriber for its stream under protocol 0. |
| `DistributorRuns.SkippedDefault` | APPS/baselib/distributor.h:401-407 | A failing run: a message that its stream's subscriber leaves is not offered to the subscriber for the default stream of its protocol. |
| `DistributorRuns.Run` | APPS/baselib/distributor.c:830-1555 | Over any run of subscriptions, unsubscriptions and messages on a new distributor, the list of every key is the stable sort, by precedence, of the registrations under that key in force, and every message is offered to whom the history before it leads to. |
| `WheelSpec.Carried` | APPS/baselib/distributor.c:483-486 | Carrying microseconds keeps the instant and leaves at most a full million of them. |
| `WheelSpec.CarriedOrder` | APPS/baselib/distributor.c:483-517 | Comparing carried times seconds first is comparing instants, except that a full million of microseconds counts as earlier than the whole second it equals. |
| `WheelSpec.PlacedSorted` | APPS/baselib/distributor.c:497-533 | A new timer keeps its bucket sorted by expiry. |
| `WheelSpec.PlacedTies` | APPS/baselib/distributor.c:497-533 | Timers that expire together stay in the order they were started. |
| `WheelSpec.DueIsExpired` | APPS/baselib/distributor.c:1031-1054 | In a sorted bucket stopping at the first timer not yet expired takes exactly the expired ones. |
| `WheelRuns.HungOk` | APPS/baselib/distributor.c:494-533 | Starting a timer keeps every timer in the bucket of its second, sorted, and adds just that timer. |
| `WheelRuns.RemovedOk` | APPS/baselib/distributor.c:420-425 | Pulling a timer keeps the wheel so and takes just that timer off. |
| `WheelRuns.ScanOk` | APPS/baselib/distributor.c:1031-1055 | A check keeps the wheel so; what it fires and what it leaves are together what was there. |
| `WheelRuns.ScanTakes` | APPS/baselib/distributor.c:1031-1055 | A check fires exactly the expired timers of the buckets it visits and leaves the other buckets alone. |
| `WheelRuns.CheckIsExact` | APPS/baselib/distributor.c:1019-1056 | If no timer expires before the last check and the clock has not passed the end of an hour, a check fires exactly the expired timers, in order of expiry, though it visits only the buckets in between. |
| `WheelRuns.CompleteIff` | APPS/baselib/distributor.c:1028-1055 | With any clock: a check leaves nothing expired behind exactly when every expired timer is in a bucket between the last check's and its own. |
| `WheelRuns.StartIsLegal` | APPS/baselib/distributor.c:481-486 | A timer started now never expires before now. |
| `WheelRuns.RunLeavesNothingBehind` | APPS/baselib/distributor.c:1019-1066 | Over any run of starts, stops and such checks every check is exact. |
| `WheelRuns.NothingIsLost` | APPS/baselib/distributor.c:429-573 | Over any run, whatever the clock does, every timer started is fired once, or pulled, or still on the wheel. |
| `WheelRuns.LateUntilItsSlot` | APPS/baselib/distributor.c:1028-1056 | A timer stays on the wheel, however long expired, while all checks fall before its slot in the hour. |
| `WheelRuns.CrossingFiresNothing` | APPS/baselib/distributor.c:1031-1031 | A check that passes the end of an hour fires nothing. |
| `TimerWheel.TimerWheelT.constructor` | APPS/baselib/distributor.c:88-293 | A new wheel is in order and empty, with duplicates forbidden. |
| `TimerWheel.TimerWheelT.PullTimer` | APPS/baselib/distributor.c:400-427 | The timer found under the key is taken off its bucket and out of the index. |
| `TimerWheel.TimerWheelT.FindSlot` | APPS/baselib/distributor.c:496-533 | The walk over a bucket ends before the first timer that expires later. |
| `TimerWheel.TimerWheelT.Hang` | APPS/baselib/distributor.c:494-533 | The new timer is hung in its place and counted. |
| `TimerWheel.TimerWheelT.TimerStart` | APPS/baselib/distributor.c:429-549 | Without duplicates the new timer replaces the live one of the same function and arguments; otherwise it gets a number of its own. It expires the given time from now, and buckets, index and count stay in order. |
| `TimerWheel.TimerWheelT.TimerStop` | APPS/baselib/distributor.c:551-573 | Stops the timer under the key and says whether there was one. |
| `TimerWheel.TimerWheelT.Collect` | APPS/baselib/distributor.c:1032-1055 | One bucket: the expired timers at its front go to the firing list in order, the rest stay. |
| `TimerWheel.TimerWheelT.CheckTimeOutList` | APPS/baselib/distributor.c:1019-1067 | The loops fire and leave exactly what the scan of the buckets from the last check to now says, the index forgets the fired timers, and the count stays the number on the wheel. If no timer expires before the last check and the check does not pass the end of an hour, it fires exactly the expired timers, in order of expiry. |
| `TimerWheel.TimerWheelT.BeginLoop` | APPS/baselib/distributor.c:1253-1260 | The loop sets out at the bucket of the current second; checks leave nothing behind from here on exactly when no timer expires before that second. |
| `TimerWheel.TimerWheelT.Process` | APPS/baselib/distributor.c:1260-1262 | The loop with timers alone: over any times of checks within an hour each of the one before, all that is fired is in order of expiry, has expired by the last check, and with what is left on the wheel makes up all the timers there were; nothing left has expired. |
| `TimerWheel.TimerWheelT.SetNoDupTimer` | APPS/baselib/distributor.c:1597-1615 | The mode changes only while no timer is live. |
| `TimerWheel.FiredForgotten` | APPS/baselib/distributor.c:1057-1066 | After firing the index holds just the timers still on the wheel. |
| `CrcBits.MirrorSteps` | APPS/crc/crcmodel.c:86-104 | Division with the top bit leading and with the bottom bit leading are mirror images, for every polynomial and number of steps. |
| `CrcBits.RStepsXor` | APPS/baselib/sctp_csum.c:95-105 | Division is linear over exclusive or. |
| `CrcBits.RStepsInjective` | APPS/baselib/sctp_csum.c:95-105 | With a constant term in the polynomial division steps lose nothing. |
| `CrcBits.ByteAtOnce` | APPS/baselib/sctp_csum.c:6-6 | Eight division steps are a shift by a byte and the division of the low byte. |
| `WordBits.SameBits` | APPS/crc/crcmodel.c:42-61 | A word is determined by its 32 bits. |
| `CrcModel.Reflect` | APPS/crc/crcmodel.c:42-61 | The bottom b bits come out in opposite order, the others unchanged. |
| `CrcModel.ReflectedWord` | APPS/crc/crcmodel.c:42-61 | Reflecting all 32 bits is taking the mirror image. |
| `CrcModel.BitOfWidMask` | APPS/crc/crcmodel.c:68-74 | The width mask has exactly the bits below the width. |
| `CrcModel.AlignedInjective` | APPS/crc/crcmodel.c:86-104 | Within its width a register can be read back from its aligned form, so that the contracts below determine it. |
| `CrcModel.Cm.Ini` | APPS/crc/crcmodel.c:78-82 | The register starts at the initial value. |
| `CrcModel.Cm.Nxt` | APPS/crc/crcmodel.c:86-104 | At every width from 8 to 32 the aligned register takes the byte, reflected or not, and eight division steps by the aligned polynomial. |
| `CrcModel.Cm.Blk` | APPS/crc/crcmodel.c:108-114 | A block is its bytes one after the other. |
| `CrcModel.Cm.Crc` | APPS/crc/crcmodel.c:118-125 | The result is the register, mirrored at its width if asked for, with the final exclusive or. |
| `CrcModel.Cm.Tab` | APPS/crc/crcmodel.c:129-147 | A table entry is eight division steps on its index: reflected ones on the index itself for a reflected table, else ordinary ones on the index at the top. |
| `CrcModel.Reflect32` | APPS/crc/buildcrc.c:18-29 | Reflects all 32 bits. |
| `CrcModel.BuildCrcTable` | APPS/crc/buildcrc.c:31-46 | An entry of the generated table is eight reflected division steps on its index. |
| `CrcTable.TableIsGenerated` | APPS/baselib/sctp_csum.c:28-93 | Each of the 256 literals is what the generator makes of its index. |
| `SctpCsum.TableStep` | APPS/baselib/sctp_csum.c:6-6 | For any polynomial: shifting by a byte and adding the table word is eight division steps on the register with the byte. |
| `SctpCsum.UpdateCrc32` | APPS/baselib/sctp_csum.c:95-105 | The table-driven loop computes the byte-wise division. |
| `SctpCsum.SctpCsumFinalize` | APPS/baselib/sctp_csum.c:108-140 | The complement, on a little-endian machine. |
| `SctpCsum.RegisterMirrored` | APPS/crc/crcmodel.c:86-114 | After every byte the table-driven register is the mirror image of the model's, for every polynomial and start. |
| `SctpCsum.BothWays` | APPS/baselib/sctp_csum.c:95-140 | For every byte string the table-driven checksum equals the bit-at-a-time model with width 32, CRC32c polynomial, ones at both ends and both reflections (appendix B of RFC 4960). |
| `SctpCsum.BuildTable` | APPS/crc/crcmodel.c:129-147 | All 256 entries of the model's table, for any width and polynomial, are eight reflected division steps on their index. |
| `SctpCsum.AnyModelBothWays` | APPS/crc/crcmodel.c:105-147 | For every width from 8 to 32, every polynomial, initial and final word with reflection on, and every byte string, the bit-at-a-time model and the loop over its own table give the same checksum. |
| `SctpCsum.Composes` | APPS/baselib/sctp_csum.c:95-105 | Checksumming in pieces is checksumming the whole. |
| `SctpCsum.Linear` | APPS/baselib/sctp_csum.c:95-105 | The update is linear in register and buffer together. |
| `SctpCsum.RegisterKept` | APPS/baselib/sctp_csum.c:95-105 | The update is injective in the register. |
| `SctpCsum.AbsorbedTogether` | APPS/baselib/sctp_csum.c:95-105 | Up to four bytes can be packed into the register first and divided afterwards. |
| `SctpCsum.BurstDetected` | APPS/baselib/sctp_csum.c:95-105 | Strings of one length that differ only inside four consecutive bytes get different registers, for every polynomial with a constant term. |
| `SctpCsum.SctpBurstDetected` | APPS/baselib/sctp_csum.c:95-140 | So do their SCTP checksums. |
| `RateSpec.BumpedCounts` | APPS/inetd/inetd.c:2193-2200 | Counting an attempt keeps each of the six counters the number of attempts in the latest tick of its residue. |
| `RateSpec.SumIsWindow` | APPS/inetd/inetd.c:2201-2207 | The sum over the counters is the number of attempts in the last six ticks, from tick six on; before that the unsigned bound wraps around and the sum is nothing. |
| `RateLimiter.Limiter.Probe` | APPS/inetd/inetd.c:2138-2164 | Finds the key's own slot, or else the least recently used of the five probed. |
| `RateLimiter.Limiter.Cpmip` | APPS/inetd/inetd.c:2082-2223 | A key has at most one slot, always one of its five; the slot taken over is the least recently used; and over every run with a clock that does not go back an attempt is rejected exactly when the attempts for its key since the key gained its slot, in the last six ticks with this one, exceed the limit, and the tick is at least six. |
| `RateLimiter.SlotStays` | APPS/inetd/inetd.c:2138-2200 | An attempt for another key leaves what a slot says true. |
| `InetdChildren.Servtab.Remember` | APPS/inetd/inetd.c:833-833 | The pid goes behind the prefix, which then holds exactly the pids remembered. |
| `InetdChildren.Servtab.Forget` | APPS/inetd/inetd.c:870-870 | Moving the last pid into the hole takes out just the one that was there. |
| `InetdChildren.Servtab.Relimit` | APPS/inetd/inetd.c:936-946 | A new limit keeps the children, or as many of the first as it allows, if there was a limit and is one; otherwise none. |
| `InetdChildren.PrefixDrop` | APPS/inetd/inetd.c:870-870 | As a multiset the shorter prefix lacks just the pid in the hole. |
| `InetdChildren.Inetd.constructor` | APPS/inetd/inetd.c:484-491 | At first only the signal pipe is watched. |
| `InetdChildren.Inetd.Enable` | APPS/inetd/inetd.c:1397-1425 | The socket is watched, and maxsock still bounds every watched one. |
| `InetdChildren.Inetd.Disable` | APPS/inetd/inetd.c:1427-1459 | The socket is no longer watched, and maxsock still bounds the others. |
| `InetdChildren.Inetd.AddChild` | APPS/inetd/inetd.c:821-836 | For every open service: all is in order afterwards exactly when the service was not at its limit before. Then the child is remembered if there is a limit, and the service is watched exactly while it is not at its limit; at the limit there is a child more than allowed and a write behind the array. No other socket changes. |
| `InetdChildren.ReconfiguredWhileReadable` | APPS/inetd/inetd.c:503-541 | A run that gets there: a service is found readable, the configuration then brings its limit down to its number of children, and it is served all the same. |
| `InetdChildren.Inetd.Reap` | APPS/inetd/inetd.c:849-878 | A child is taken off the first service that remembers it, which is watched afterwards; all other services keep theirs. |
| `InetdChildren.Inetd.ReapChild` | APPS/inetd/inetd.c:849-878 | All children waited for; no service gains any. |
| `InetdChildren.Inetd.CloseSep` | APPS/inetd/inetd.c:1337-1349 | The socket is closed and no longer watched, and the children are forgotten. |
| `InetdChildren.Inetd.Setup` | APPS/inetd/inetd.c:1127-1258 | A closed service is opened and watched, or stays closed if socket or bind fails. |
| `InetdChildren.Inetd.Reconfigure` | APPS/inetd/inetd.c:936-958 | With a new limit the service is turned on or off so that it is watched exactly if open and not at the limit. |
| `InetdChildren.Inetd.Enter` | APPS/inetd/inetd.c:1376-1395 | A new service joins the table closed and without children. |
| `InetdChildren.Inetd.Purge` | APPS/inetd/inetd.c:1062-1078 | A service no longer configured is closed and leaves the table, and the others keep sockets and children. |
| `InetdChildren.Inetd.Run` | APPS/inetd/inetd.c:484-560 | Over any run of connections served, children that exit and configuration steps all is in order, unless a child is started for a service at its limit; the run ends there, with one child more than allowed. |
| `InetSpec.QuadIsRead` | APPS/apps/inet_pton.c:21-59 | Every text of four decimal octets, with any leading zeros and at most 255, is read as those octets. |
| `InetSpec.ReadIsQuad` | APPS/apps/inet_pton.c:21-59 | Nothing else is read. |
| `InetPton.InetPton4` | APPS/apps/inet_pton.c:21-59 | The loop accepts exactly those texts, writes four bytes at the given place and leaves the destination alone on failure. |
| `Inet6Spec.EveryTreeIsRead` | APPS/apps/inet_pton.c:75-162 | Every text of the grammar is read as the sixteen bytes it denotes: groups up to 0xffff, at most one `::` for at least one group of zeros, an optional dotted quad at the end (section 2.2 of RFC 4291). |
| `Inet6Spec.OnlyTreesAreRead` | APPS/apps/inet_pton.c:75-162 | Whatever is read is a text of the grammar and is read as what it denotes. |
| `Inet6Spec.GapInFullAddress` | APPS/apps/inet_pton.c:142-151 | A `::` in an address that is already full is refused. |
| `InetPton.ShiftTail` | APPS/apps/inet_pton.c:142-155 | The in-place shift leaves head, zeros and tail, within the sixteen bytes. |
| `InetPton.InetPton6` | APPS/apps/inet_pton.c:75-162 | The loop accepts exactly what the reader function does, never writes outside the sixteen bytes, and leaves the destination alone on failure. |
| `MemCheck.RoomIff` | APPS/baselib/memcheck.c:164-223 | Over all sizes of 64 bits: a new block has room for the request exactly when the request, the guards, the header and the slack do not wrap around; of the other requests exactly the last 48 sizes have both guards written inside the block. |
| `MemCheck.LargestRequest` | APPS/baselib/memcheck.c:193-223 | The largest request gets a block of 191 bytes with its second guard at byte 47. |
| `MemCheck.WriteGuards` | APPS/baselib/memcheck.c:266-282 | Both guards get their pattern and the owner's bytes stay; where they overlap the first is not whole. |
| `MemCheck.OverlapShows` | APPS/baselib/memcheck.c:407-434 | Guards that overlap never pass the check. |
| `MemCheck.CheckGuards` | APPS/baselib/memcheck.c:407-434 | The check passes exactly if both guards are untouched. |
| `MemCheck.SumMemory` | APPS/baselib/memcheck.c:134-145 | The sum over all bytes, in 32 bits. |
| `MemCheck.FreeLess` | APPS/baselib/memcheck.c:199-215 | Linking around a block leaves the free chain of the others. |
| `MemCheck.ChainMore` | APPS/baselib/memcheck.c:234-245 | A new block at the head keeps the chain of all blocks. |
| `MemCheck.Chain.Find` | APPS/baselib/memcheck.c:199-215 | The first free block with room. |
| `MemCheck.Chain.Malloc` | APPS/baselib/memcheck.c:147-289 | The block was free or is new, and no other block changes. It has the room and whole guards exactly when no sum wraps around; all blocks stay sound exactly then. A freed block that nobody wrote to passes its checksum; a new block is made only when no free one has room. There is none exactly when a guard would be written outside of it. |
| `MemCheck.Chain.ShortForGood` | APPS/baselib/memcheck.c:368-434 | A block that was handed out without room can never be given back. |
| `MemCheck.Chain.Free` | APPS/baselib/memcheck.c:368-452 | Fails, where the code aborts, exactly when the block is not in use or a guard is overwritten; otherwise the block is on the free chain with the checksum of its bytes. With sound blocks a block in use can always be freed. |
| `MemCheck.Chain.Poke` | APPS/baselib/memcheck.c:147-289 | An owner that writes only the bytes it asked for and got keeps all blocks sound. |
| `MemCheck.Allocator.Malloc` | APPS/baselib/memcheck.c:164-289 | The block comes from the chain of its size. No block leaves its chain, only the one handed out is new or changed, and all blocks stay sound exactly when it has its room. |
| `MemCheck.Allocator.Calloc` | APPS/baselib/memcheck.c:292-304 | The bytes are cleared, and there are as many as asked for exactly when the product with the guards, the header and the slack fits 64 bits; the rest as for `Malloc`. |
| `MemCheck.Allocator.Free` | APPS/baselib/memcheck.c:435-452 | The block goes back to the very chain it came from, and no other block is touched. |
| `MemCheck.Allocator.Poke` | APPS/baselib/memcheck.c:147-289 | The same for a byte written by its owner. |
| `MemCheck.Allocator.SoundRoom` | APPS/baselib/memcheck.c:147-289 | While all blocks are sound, each block in use has the room it was asked for. |
| `MemRuns.WrittenIsRead` | APPS/baselib/memcheck.c:147-289 | In the program's view a byte once written stays until it is written again or its block is given back, whatever else is done. |
| `MemRuns.Program.DoFree` | APPS/baselib/memcheck.c:395-452 | A block given back twice is found out exactly when it has not been handed out again in between; otherwise it is its new owner that loses it. |
| `MemRuns.Program.Do` | APPS/baselib/memcheck.c:147-452 | One request, write or give-back goes through and has the effect that the program's view says; no block leaves its chain. |
| `MemRuns.Program.Run` | APPS/baselib/memcheck.c:147-452 | Over every run of requests that fit, writes to own bytes and give-backs of own blocks: no call fails, every block in use belongs to one handle and holds the bytes last written through it, all others are on the free chain, and no block ever leaves its chain. |
| `EleAggregator.SyncNeeded` | APPS/incast/ele_aggregator.c:55-111 | Reads on until the marks agree or both files are closed, always terminates, and loses no common mark. |
| `EleAggregator.Aggregate` | APPS/incast/ele_aggregator.c:183-223 | Ends on any two files that are not empty, and writes exactly their join when the marks of each increase, whichever ends first. |
| `EleAggregator.JoinStep` | APPS/incast/ele_aggregator.c:83-111 | Comparing the first marks decides the next step of the join. |
| `EleAggregator.JoinSymmetric` | APPS/incast/ele_aggregator.c:55-111 | The join is the same from either side. |

## Left out

- HashedTable: key memory is an abstract value with equality in place of pointer, size and `memcmp`; `translateKey` is any function to keys, and data pointers are not null.
- HashedTable: the prime-table variant of the size function (`HASH_OPTIMIZE_FOR_TIME`), `getNextBucket`, `removeBucket` and the counting and printing helpers.
- HashedTable: integers are unbounded; table sizes near the limits of `int` are not modelled.
- MarkRuns.SavedPositionComesBack: without removals between save and return; `MarkerComesBack` says what holds with them.
- MarkRuns.EveryRunAgrees: fewer than 65536 saves since the last resize; `HandlesRunRound` shows that the bound is needed, and `ComesBackIff` says what holds without it.
- TableRuns.Scanner.Run: no entries are put in during a run; a marker from before a resize is refused, and `InsertKeepsNext` says what one entry does to the scan.
- Allocation failure everywhere, and operations on a null table, list or distributor.
- Dlist: `clear`, `destroy` and the variants that hand over links in place of entries.
- Hlist: the index is the finite map that the hash table implements; `hlist_clear` alone, which leaves the index behind, and the link-handing variants are not modelled.
- Distributor: the two-level hash table is a map of maps; protocol and stream numbers are naturals; file descriptors, polling, clock ticks, start and stop events are not modelled.
- Distributor.DistributorT.RoutedAsDocumented: for messages that have their data and buffer when they are sent.
- Distributor.DistributorT.SendMessage: round robin is off, and callbacks are any function of subscriber and message that does not subscribe or unsubscribe.
- TimerWheel: the `soonest_timer` cache and the poll timeout computed from it. Callbacks run after the pass, so that one which stops or restarts a timer collected in the same pass is not modelled.
- TimerWheel.TimerWheelT.PullTimer: a bucket is a sequence; the links of the queue macros, with which `LIST_REMOVE` takes a timer out, are not modelled.
- TimerWheel: a restarted timer is a new object, where the source reuses the memory of the old one.
- TimerWheel.TimerWheelT.TimerStart: with duplicates allowed, a number that has run round and meets a live timer of the same key is not entered in the index, as in the source; the index then leads to the older timer.
- WheelRuns.RunLeavesNothingBehind: for checks within an hour of the wheel; `CompleteIff`, `CrossingFiresNothing` and `LateUntilItsSlot` cover the others.
- CrcModel: words of C type `long` have 32 bits.
- SctpCsum.SctpCsumFinalize: the byte swap on big-endian machines is not modelled.
- RateLimiter: IPv4 keys; `getpeername` is an optional address; logging is not modelled. Counters are unbounded.
- RateLimiter.Limiter.Cpmip: the exact count is stated for clocks that do not go back and whose ticks fit 32 bits.
- InetdChildren: services are neither RPC nor tcpmux; sockets, fork and the reading of the configuration are parameters.
- InetdChildren.Inetd.AddChild: what the write behind the array destroys; the option `SANITY_CHECK`, with which the program ends there, is off.
- InetPton: `inet_pton` itself, which only chooses between the two readers, and bytes after the end of a C string.
- MemCheck: headers are those of machines with pointers of 64 bits. Blocks are objects with byte sequences; a write outside of a block ends what is modelled. The 32-bit loop counters of the checksums, which do not reach the end of blocks of 2 GB and more, the range checks on raw addresses, the probing for array pads and the statistics are not modelled.
- EleAggregator: lines are entries already; parsing and the overflow of sums are not modelled.
- EleAggregator.Aggregate: for marks that do not increase only termination is stated.
- The remaining sources: transports, test clients and servers, the run loops of the traffic generators, `llist.c`, `data_sorter.c`, `byte_work.c` and the printers add little to what is proved here.
